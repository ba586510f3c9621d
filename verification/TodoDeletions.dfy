// What becomes of a deletion when operations run at once: from its first section on the todo is not live, and once the
// deletion is published it never is again, unless a failed update is rolled back on to the todo.
module TodoDeletions {
  import opened TodoStore
  import opened TodoInterleavings

  predicate DeletionPublished(log: seq<Event>, id: string) {
    exists e <- log :: e.kind == Deleted && e.todoId == id
  }

  /** The thread's operation has marked the todo as deleted and is not through. */
  predicate Deleting(s: State, t: nat, id: string) {
    t in s.operations && (s.operations[t].Marked? || s.operations[t].MarkFailed?) && s.operations[t].original.id == id
  }

  predicate UnderDeletion(s: State, id: string) {
    exists t <- s.operations :: Deleting(s, t, id)
  }

  predicate GoneOrGoing(s: State, id: string) {
    DeletionPublished(s.log, id) || UnderDeletion(s, id)
  }

  /** No todo is live whose deletion is published or under way. */
  ghost predicate StayDeleted(s: State) {
    forall id | GoneOrGoing(s, id) :: !Found(s.store, id)
  }

  /** The id has been handed out, and its create is past its first section. */
  ghost predicate Used(s: State, id: string) {
    && (exists n: nat :: n <= s.sequence && id == TodoId(n))
    && forall t <- s.operations :: s.operations[t].Allocated? ==> TodoId(s.operations[t].n) != id
  }

  ghost predicate AllUsed(s: State) {
    forall id | GoneOrGoing(s, id) :: Used(s, id)
  }

  /** A todo is deleted by one operation only, once. */
  ghost predicate DeletedOnce(s: State) {
    && (forall t, u, id | Deleting(s, t, id) && Deleting(s, u, id) :: t == u)
    && (forall t, id | Deleting(s, t, id) :: !DeletionPublished(s.log, id))
    && (forall t <- s.operations | s.operations[t].Marked? :: s.operations[t].marked.id == s.operations[t].original.id)
  }

  ghost predicate DeletedForAReason(s: State) {
    forall id <- s.store.todos | s.store.todos[id].deleted :: GoneOrGoing(s, id)
  }

  ghost predicate Deletions(s: State) {
    StayDeleted(s) && AllUsed(s) && DeletedOnce(s) && DeletedForAReason(s)
  }

  // ------------------------------------------------------------------ every step

  lemma UsedStays(s: State, s': State, id: string)
    requires Inv(s) && Used(s, id) && s.sequence <= s'.sequence
    requires forall t <- s'.operations | s'.operations[t].Allocated? ::
      (t in s.operations && s.operations[t] == s'.operations[t]) || s'.operations[t].n > s.sequence
    ensures Used(s', id)
  {
    var n: nat :| n <= s.sequence && id == TodoId(n);
    forall t <- s'.operations | s'.operations[t].Allocated?
      ensures TodoId(s'.operations[t].n) != id
    {
      if TodoId(s'.operations[t].n) == id {
        TodoIdInjective(s'.operations[t].n, n);
      }
    }
  }

  /** Steps that neither begin nor end a deletion. */
  lemma SameDeletions(s: State, s': State)
    requires Inv(s) && Deletions(s) && s.sequence <= s'.sequence
    requires forall id :: DeletionPublished(s'.log, id) <==> DeletionPublished(s.log, id)
    requires forall t, id :: Deleting(s', t, id) <==> Deleting(s, t, id)
    requires forall t <- s'.operations | s'.operations[t].Marked? ::
      s'.operations[t].marked.id == s'.operations[t].original.id
    requires forall t <- s'.operations | s'.operations[t].Allocated? ::
      (t in s.operations && s.operations[t] == s'.operations[t]) || s'.operations[t].n > s.sequence
    requires forall id | GoneOrGoing(s, id) :: !Found(s'.store, id)
    requires forall id <- s'.store.todos | s'.store.todos[id].deleted :: GoneOrGoing(s, id)
    ensures Deletions(s')
  {
    assert forall id :: GoneOrGoing(s', id) <==> GoneOrGoing(s, id);
    forall id | GoneOrGoing(s', id)
      ensures Used(s', id)
    {
      UsedStays(s, s', id);
    }
  }

  lemma AllocateDeletes(s: State, a: Action)
    requires Inv(s) && Deletions(s) && a.Allocate? && Enabled(s, a)
    ensures Deletions(Next(s, a))
  {
    SameDeletions(s, Next(s, a));
  }

  lemma InsertDeletes(s: State, a: Action)
    requires Inv(s) && Deletions(s) && a.InsertAllocated? && Enabled(s, a)
    ensures Deletions(Next(s, a))
  {
    var id := TodoId(s.operations[a.thread].n);
    assert GoneOrGoing(s, id) ==> Used(s, id);
    SameDeletions(s, Next(s, a));
  }

  lemma BeginUpdateDeletes(s: State, a: Action)
    requires Inv(s) && Deletions(s) && a.BeginUpdate? && Enabled(s, a)
    ensures Deletions(Next(s, a))
  {
    if Found(s.store, a.id) {
      SameDeletions(s, Next(s, a));
    }
  }

  lemma BeginDeleteDeletes(s: State, a: Action)
    requires Inv(s) && Deletions(s) && a.BeginDelete? && Enabled(s, a)
    ensures Deletions(Next(s, a))
  {
    var s' := Next(s, a);
    if Found(s.store, a.id) {
      assert !GoneOrGoing(s, a.id) && s.store.todos[a.id].id == a.id;
      assert forall t, id :: Deleting(s', t, id) <==> Deleting(s, t, id) || (t == a.thread && id == a.id);
      assert Deleting(s', a.thread, a.id);
      assert forall id :: GoneOrGoing(s', id) <==> GoneOrGoing(s, id) || id == a.id;
      assert Used(s, a.id) by {
        forall t <- s.operations | s.operations[t].Allocated?
          ensures TodoId(s.operations[t].n) != a.id
        {
          assert OperationValid(s, s.operations[t]);
        }
      }
      forall id | GoneOrGoing(s', id)
        ensures Used(s', id)
      {
        UsedStays(s, s', id);
      }
    }
  }

  lemma PublishedMore(log: seq<Event>, e: Event)
    ensures forall id ::
      DeletionPublished(log + [e], id) <==> DeletionPublished(log, id) || (e.kind == Deleted && e.todoId == id)
  {
  }

  lemma PublishDeletes(s: State, a: Action)
    requires Inv(s) && Deletions(s) && a.Publish? && Enabled(s, a)
    ensures Deletions(Next(s, a))
  {
    var s', o := Next(s, a), s.operations[a.thread];
    if a.delivered {
      PublishedMore(s.log, Announced(s, o));
    }
    if a.delivered && o.Marked? {
      var gone := o.original.id;
      assert Deleting(s, a.thread, gone);
      assert forall t, id :: Deleting(s', t, id) <==> Deleting(s, t, id) && t != a.thread;
      forall id
        ensures GoneOrGoing(s', id) <==> GoneOrGoing(s, id)
      {
        if UnderDeletion(s, id) && id != gone {
          var t :| t in s.operations && Deleting(s, t, id);
          assert Deleting(s', t, id);
        }
      }
      forall id | GoneOrGoing(s', id)
        ensures Used(s', id)
      {
        UsedStays(s, s', id);
      }
    } else {
      SameDeletions(s, s');
    }
  }

  lemma MarkFailedDeletes(s: State, a: Action)
    requires Inv(s) && Deletions(s) && a.RollBack? && Enabled(s, a) && s.operations[a.thread].MarkFailed?
    ensures Deletions(Next(s, a))
  {
    var s', back := Next(s, a), s.operations[a.thread].original.id;
    assert Deleting(s, a.thread, back) && GoneOrGoing(s, back);
    assert forall t, id :: Deleting(s', t, id) <==> Deleting(s, t, id) && t != a.thread;
    forall id
      ensures GoneOrGoing(s', id) <==> GoneOrGoing(s, id) && id != back
    {
      if UnderDeletion(s, id) && id != back {
        var t :| t in s.operations && Deleting(s, t, id);
        assert Deleting(s', t, id);
      }
    }
    forall id | GoneOrGoing(s', id)
      ensures Used(s', id)
    {
      UsedStays(s, s', id);
    }
    assert OperationValid(s, s.operations[a.thread]);
  }

  lemma RollBackDeletes(s: State, a: Action)
    requires Inv(s) && Deletions(s) && a.RollBack? && Enabled(s, a)
    ensures if RevivesDeleted(s, a) then !StayDeleted(Next(s, a)) else Deletions(Next(s, a))
  {
    var s', o := Next(s, a), s.operations[a.thread];
    assert OperationValid(s, o);
    if o.MarkFailed? {
      MarkFailedDeletes(s, a);
    } else if RevivesDeleted(s, a) {
      StillGoing(s, s', a.thread, o.original.id);
    } else {
      SameDeletions(s, s');
    }
  }

  lemma StillGoing(s: State, s': State, t: nat, id: string)
    requires GoneOrGoing(s, id) && s'.log == s.log && s'.operations == s.operations - {t} && !Deleting(s, t, id)
    ensures GoneOrGoing(s', id)
  {
    if UnderDeletion(s, id) {
      var u :| u in s.operations && Deleting(s, u, id);
      assert Deleting(s', u, id);
    }
  }

  /** A step lets a todo live whose deletion is published or under way if and only if it is the roll-back of an update
      whose todo has been deleted meanwhile. */
  lemma DeletionsStep(s: State, a: Action)
    requires Inv(s) && Deletions(s) && Enabled(s, a)
    ensures if RevivesDeleted(s, a) then !StayDeleted(Next(s, a)) else Deletions(Next(s, a))
  {
    match a
    case Allocate(_, _, _) => AllocateDeletes(s, a);
    case InsertAllocated(_, _) => InsertDeletes(s, a);
    case BeginUpdate(_, _, _, _) => BeginUpdateDeletes(s, a);
    case BeginDelete(_, _, _) => BeginDeleteDeletes(s, a);
    case Publish(_, _) => PublishDeletes(s, a);
    case RollBack(_) => RollBackDeletes(s, a);
  }

  // ------------------------------------------------------------------ runs

  /** In every state of the run, the last one included. */
  ghost predicate AlwaysStayDeleted(s: State, actions: seq<Action>)
    requires Runs(s, actions)
    decreases |actions|
  {
    StayDeleted(s) && (actions == [] || AlwaysStayDeleted(Next(s, actions[0]), actions[1..]))
  }

  lemma {:induction false} DeletionsInRun(s: State, actions: seq<Action>)
    requires Inv(s) && Deletions(s) && Runs(s, actions)
    ensures AlwaysStayDeleted(s, actions) <==> NoneRevived(s, actions)
    ensures NoneRevived(s, actions) ==> Deletions(After(s, actions))
    decreases |actions|
  {
    if actions != [] {
      var s' := Next(s, actions[0]);
      StepKeeps(s, actions[0]);
      DeletionsStep(s, actions[0]);
      if !RevivesDeleted(s, actions[0]) {
        DeletionsInRun(s', actions[1..]);
      }
    }
  }

  lemma NothingDeletedYet(now: string)
    ensures Deletions(Initial(now))
  {
    assert forall id :: !GoneOrGoing(Initial(now), id);
  }

  /** Over whole runs: no todo is ever live whose deletion is published or under way exactly when no failed update of
      the run is rolled back on to a deleted todo. */
  lemma DeletedStaysDeletedIff(now: string, actions: seq<Action>)
    requires Runs(Initial(now), actions)
    ensures AlwaysStayDeleted(Initial(now), actions) <==> NoneRevived(Initial(now), actions)
  {
    InitialInv(now);
    NothingDeletedYet(now);
    DeletionsInRun(Initial(now), actions);
  }

  /** In particular, no todo is found whose deletion is in the log. */
  lemma PublishedDeletionHolds(now: string, actions: seq<Action>, e: Event)
    requires Runs(Initial(now), actions) && NoneRevived(Initial(now), actions)
    requires e in After(Initial(now), actions).log && e.kind == Deleted
    ensures !Found(After(Initial(now), actions).store, e.todoId)
  {
    InitialInv(now);
    NothingDeletedYet(now);
    DeletionsInRun(Initial(now), actions);
    assert GoneOrGoing(After(Initial(now), actions), e.todoId);
  }
}
