// A subscription: a goroutine that takes events from its channel on the bus, drops those for other employees, and
// passes the rest on to its client, until the client goes away or the channel is closed.
module Forwarder {
  import opened EventBus
  import opened Wrappers

  /** Where the goroutine is: waiting for an event, holding one to pass on, or leaving, by way of first the bus and then
      its own channel. */
  datatype Place = Waiting | Holding(publication: nat) | Leaving | Closing | Done

  /** A subscription for one employee, or all of them. `out` is its channel to the client, one slot again; `delivered`
      what the client has taken from it; `dropped` an event given up because the client had gone. */
  datatype Subscription = Subscription(id: nat, wanted: Option<string>, place: Place, cancelled: bool, out: seq<nat>,
                                       outClosed: bool, delivered: seq<nat>, dropped: seq<nat>, panicked: bool)

  /** The bus, and a subscription on it. */
  datatype System = System(bus: Bus, subscription: Subscription)

  datatype Step =
    | Elsewhere(action: Action)
    | Cancel
    | TakeEvent
    | SeeClosed
    | SeeCancelled
    | PassOn
    | LeaveBus
    | CloseOut
    | ClientTakes

  predicate Wants(wanted: Option<string>, u: Update) {
    wanted.None? || wanted.value == u.employeeId
  }

  /** Everyone else on the bus may do anything but receive from this subscription's channel. Where several cases of a
      select are ready, any may be taken. */
  predicate CanStep(y: System, step: Step) {
    var s := y.subscription;
    match step
    case Elsewhere(a) => Enabled(y.bus, a) && a != Receive(s.id)
    case Cancel => true
    case TakeEvent => s.place.Waiting? && Enabled(y.bus, Receive(s.id))
      && y.bus.channels[s.id].slot[0] < |y.bus.publications|
    case SeeClosed => s.place.Waiting? && s.id in y.bus.channels && y.bus.channels[s.id].closed
      && y.bus.channels[s.id].slot == []
    case SeeCancelled => (s.place.Waiting? || s.place.Holding?) && s.cancelled
    case PassOn => s.place.Holding? && s.out == []
    case LeaveBus => s.place.Leaving? && Enabled(y.bus, Action.Unsubscribe(s.id))
    case CloseOut => s.place.Closing?
    case ClientTakes => s.out != []
  }

  function After(y: System, step: Step): System
    requires CanStep(y, step)
  {
    var s := y.subscription;
    match step
    case Elsewhere(a) => y.(bus := EventBus.Next(y.bus, a))
    case Cancel => y.(subscription := s.(cancelled := true))
    case TakeEvent =>
      var k := y.bus.channels[s.id].slot[0];
      System(EventBus.Next(y.bus, Receive(s.id)),
             if Wants(s.wanted, y.bus.publications[k]) then s.(place := Holding(k)) else s)
    case SeeClosed => y.(subscription := s.(place := Leaving))
    case SeeCancelled =>
      y.(subscription := s.(place := Leaving,
          dropped := s.dropped + if s.place.Holding? then [s.place.publication] else []))
    case PassOn => y.(subscription := s.(place := Waiting, out := [s.place.publication]))
    case LeaveBus => System(EventBus.Next(y.bus, Action.Unsubscribe(s.id)), s.(place := Closing))
    case CloseOut => y.(subscription := s.(place := Done, outClosed := true, panicked := s.panicked || s.outClosed))
    case ClientTakes => y.(subscription := s.(out := s.out[1..], delivered := s.delivered + [s.out[0]]))
  }

  predicate Published(ks: seq<nat>, publications: seq<Update>) {
    forall i | 0 <= i < |ks| :: ks[i] < |publications|
  }

  /** The events for the employee wanted, in order. */
  function Matching(wanted: Option<string>, publications: seq<Update>, ks: seq<nat>): seq<nat>
    requires Published(ks, publications)
  {
    if ks == [] then []
    else
      var last := ks[|ks| - 1];
      Matching(wanted, publications, ks[..|ks| - 1]) + if Wants(wanted, publications[last]) then [last] else []
  }

  function Held(s: Subscription): seq<nat> {
    if s.place.Holding? then [s.place.publication] else []
  }

  predicate HasLeft(s: Subscription) {
    s.place.Leaving? || s.place.Closing? || s.place.Done?
  }

  /** All that was received for the employee wanted has been delivered, or is on its way to the client in order, or was
      given up as the last thing before leaving. Leaving comes before being off the bus, and that before closing; who
      leaves uncalled for has a channel that is closed and has nothing more in it. */
  ghost predicate SubscriptionInv(y: System) {
    var b, s := y.bus, y.subscription;
    && s.id in b.channels && s.id !in b.allotted && !s.panicked && |s.out| <= 1 && |s.dropped| <= 1
    && (s.place.Waiting? || s.place.Holding? ==> s.dropped == [])
    && (s.dropped != [] ==> s.cancelled)
    && (s.outClosed <==> s.place.Done?)
    && (s.place.Closing? || s.place.Done? ==> s.id !in b.subscribers)
    && (!s.cancelled && HasLeft(s) ==> b.channels[s.id].closed && b.channels[s.id].slot == [])
    && Published(b.channels[s.id].received, b.publications)
    && s.delivered + s.out + Held(s) + s.dropped == Matching(s.wanted, b.publications, b.channels[s.id].received)
  }

  lemma {:induction false} MatchingStays(wanted: Option<string>, publications: seq<Update>, more: seq<Update>,
      ks: seq<nat>)
    requires publications <= more && Published(ks, publications)
    ensures Matching(wanted, more, ks) == Matching(wanted, publications, ks)
  {
    if ks != [] {
      MatchingStays(wanted, publications, more, ks[..|ks| - 1]);
    }
  }

  /** What others do leaves alone what a channel's subscriber has received; and a channel that is off the map stays so,
      closed and without anything new. */
  lemma OthersGoOn(b: Bus, a: Action, id: nat)
    requires MapHoldsOpen(b) && Enabled(b, a) && a != Receive(id) && id in b.channels && id !in b.allotted
    ensures var b' := Next(b, a);
      && b.publications <= b'.publications && id in b'.channels && id !in b'.allotted
      && b'.channels[id].received == b.channels[id].received
      && (id !in b.subscribers ==> id !in b'.subscribers && b'.channels[id] == b.channels[id])
  {
  }

  lemma ElsewhereKeeps(y: System, step: Step)
    requires Inv(y.bus) && SubscriptionInv(y) && step.Elsewhere? && CanStep(y, step)
    ensures SubscriptionInv(After(y, step))
  {
    var b, b', s := y.bus, After(y, step).bus, y.subscription;
    OthersGoOn(b, step.action, s.id);
    MatchingStays(s.wanted, b.publications, b'.publications, b.channels[s.id].received);
  }

  lemma TakeKeeps(y: System, step: Step)
    requires Inv(y.bus) && SubscriptionInv(y) && step.TakeEvent? && CanStep(y, step)
    ensures SubscriptionInv(After(y, step))
  {
    var b, s := y.bus, y.subscription;
    var c := b.channels[s.id];
    var k := c.slot[0];
    MatchingNext(s.wanted, b.publications, c.received, k);
    assert s.dropped == [] && Held(s) == [];
    assert After(y, step).bus.channels[s.id].received == c.received + [k];
  }

  lemma MatchingNext(wanted: Option<string>, publications: seq<Update>, ks: seq<nat>, k: nat)
    requires Published(ks, publications) && k < |publications|
    ensures Published(ks + [k], publications)
    ensures Matching(wanted, publications, ks + [k])
      == Matching(wanted, publications, ks) + if Wants(wanted, publications[k]) then [k] else []
  {
    assert (ks + [k])[..|ks|] == ks;
  }

  lemma StepKeepsSubscription(y: System, step: Step)
    requires Inv(y.bus) && SubscriptionInv(y) && CanStep(y, step)
    ensures Inv(After(y, step).bus) && SubscriptionInv(After(y, step))
  {
    match step
    case Elsewhere(a) =>
      StepKeeps(y.bus, a);
      ElsewhereKeeps(y, step);
    case TakeEvent =>
      StepKeeps(y.bus, Receive(y.subscription.id));
      TakeKeeps(y, step);
    case LeaveBus =>
      StepKeeps(y.bus, Action.Unsubscribe(y.subscription.id));
      LeaveKeeps(y, step);
    case _ => OwnStepKeeps(y, step);
  }

  lemma LeaveKeeps(y: System, step: Step)
    requires Inv(y.bus) && SubscriptionInv(y) && step.LeaveBus? && CanStep(y, step)
    ensures SubscriptionInv(After(y, step))
  {
  }

  /** Steps that leave the bus as it is. */
  lemma OwnStepKeeps(y: System, step: Step)
    requires SubscriptionInv(y) && CanStep(y, step) && !step.Elsewhere? && !step.TakeEvent? && !step.LeaveBus?
    ensures SubscriptionInv(After(y, step)) && After(y, step).bus == y.bus
  {
  }

  predicate CanRun(y: System, steps: seq<Step>)
    decreases |steps|
  {
    steps == [] || (CanStep(y, steps[0]) && CanRun(After(y, steps[0]), steps[1..]))
  }

  function AfterAll(y: System, steps: seq<Step>): System
    requires CanRun(y, steps)
    decreases |steps|
  {
    if steps == [] then y else AfterAll(After(y, steps[0]), steps[1..])
  }

  /** EmployeeUpdated has subscribed and started its goroutine. */
  ghost predicate Started(y: System) {
    var b, s := y.bus, y.subscription;
    && Inv(b) && s.id in b.subscribers && s.id in b.channels && b.channels[s.id].received == []
    && s.place.Waiting? && !s.cancelled && s.out == [] && !s.outClosed && s.delivered == [] && s.dropped == []
    && !s.panicked
  }

  /** EmployeeUpdated, while nobody publishes: a new subscriber whose goroutine waits, with nothing delivered. */
  lemma CanStart(b: Bus, wanted: Option<string>) returns (y: System)
    requires Inv(b) && b.publishing == map[]
    ensures Started(y) && y.subscription.wanted == wanted && y.subscription.id !in b.channels
    ensures y.bus.subscribers == b.subscribers + {y.subscription.id} && y.bus.publications == b.publications
    ensures y.bus.publishing == map[] && y.bus.channels[y.subscription.id].slot == []
  {
    var b' := CanSubscribe(b);
    y := System(b', Subscription(b.nextId + 1, wanted, Waiting, false, [], false, [], [], false));
  }

  lemma {:induction false} RunKeepsSubscription(y: System, steps: seq<Step>)
    requires Inv(y.bus) && SubscriptionInv(y) && CanRun(y, steps)
    ensures Inv(AfterAll(y, steps).bus) && SubscriptionInv(AfterAll(y, steps))
    ensures AfterAll(y, steps).subscription.wanted == y.subscription.wanted
      && AfterAll(y, steps).subscription.id == y.subscription.id
    decreases |steps|
  {
    if steps != [] {
      StepKeepsSubscription(y, steps[0]);
      RunKeepsSubscription(After(y, steps[0]), steps[1..]);
    }
  }

  /** What the client has been delivered is, in order, what the subscription received for the employee wanted; but for
      three events at most that are on their way, it is all of that unless somebody cancelled. A goroutine that is done
      is off the bus, and its channel to the client has been closed; until then it has not. */
  ghost predicate ClientServed(y: System) {
    var b, s := y.bus, y.subscription;
    && s.id in b.channels && Published(b.channels[s.id].received, b.publications)
    && var matching := Matching(s.wanted, b.publications, b.channels[s.id].received);
    && s.delivered <= matching && (!s.cancelled ==> s.delivered + s.out + Held(s) == matching)
    && |b.channels[s.id].slot| + |Held(s)| + |s.out| <= 3
    && (s.outClosed <==> s.place.Done?) && (s.place.Done? ==> s.id !in b.subscribers && b.channels[s.id].closed)
    && !s.panicked
  }

  lemma InvServes(y: System)
    requires Inv(y.bus) && SubscriptionInv(y)
    ensures ClientServed(y)
  {
    var s := y.subscription;
    assert Faithful(y.bus.channels[s.id]);
    assert s.delivered + s.out + Held(s) + s.dropped == s.delivered + (s.out + Held(s) + s.dropped);
  }

  /** The events of one employee, in order. */
  function OfEmployee(employeeId: string, publications: seq<Update>, ks: seq<nat>): seq<nat>
    requires Published(ks, publications)
  {
    if ks == [] then []
    else
      var last := ks[|ks| - 1];
      OfEmployee(employeeId, publications, ks[..|ks| - 1])
      + if publications[last].employeeId == employeeId then [last] else []
  }

  /** What is meant by matching: everything, or the events of the employee wanted. */
  lemma {:induction false} MatchingIsOfEmployee(wanted: Option<string>, publications: seq<Update>, ks: seq<nat>)
    requires Published(ks, publications)
    ensures Matching(wanted, publications, ks)
      == if wanted.Some? then OfEmployee(wanted.value, publications, ks) else ks
  {
    if ks != [] {
      MatchingIsOfEmployee(wanted, publications, ks[..|ks| - 1]);
      assert ks == ks[..|ks| - 1] + [ks[|ks| - 1]];
    }
  }

  lemma {:induction false} OfEmployeeOnly(employeeId: string, publications: seq<Update>, ks: seq<nat>)
    requires Published(ks, publications)
    ensures forall k <- OfEmployee(employeeId, publications, ks) ::
      k < |publications| && publications[k].employeeId == employeeId
  {
    if ks != [] {
      OfEmployeeOnly(employeeId, publications, ks[..|ks| - 1]);
    }
  }

  /** What has been delivered, is on its way or is held: of the employee wanted only, and unless somebody cancelled all
      that was received of that employee, in order; of all employees if none is wanted in particular. A goroutine leaves
      of its own accord only when there is nothing more to come. */
  ghost predicate ServedAsWanted(y: System) {
    var b, s := y.bus, y.subscription;
    && s.id in b.channels && Published(b.channels[s.id].received, b.publications)
    && (HasLeft(s) && !s.cancelled ==> b.channels[s.id].closed && b.channels[s.id].slot == [])
    && var received := b.channels[s.id].received;
    && var passed := s.delivered + s.out + if s.place.Holding? then [s.place.publication] else [];
    match s.wanted
    case Some(e) =>
      && (forall k <- passed :: k < |b.publications| && b.publications[k].employeeId == e)
      && passed <= OfEmployee(e, b.publications, received)
      && (!s.cancelled ==> passed == OfEmployee(e, b.publications, received))
    case None => passed <= received && (!s.cancelled ==> passed == received)
  }

  lemma InvServesAsWanted(y: System)
    requires Inv(y.bus) && SubscriptionInv(y)
    ensures ServedAsWanted(y)
  {
    var b, s := y.bus, y.subscription;
    var received := b.channels[s.id].received;
    var passed := s.delivered + s.out + Held(s);
    MatchingIsOfEmployee(s.wanted, b.publications, received);
    assert passed <= passed + s.dropped;
    if s.wanted.Some? {
      OfEmployeeOnly(s.wanted.value, b.publications, received);
      assert forall k <- passed :: k in passed + s.dropped;
    }
  }

  /** In every run of a subscription, whatever others do on the bus, and whenever somebody cancels. */
  lemma EverySubscription(y: System, steps: seq<Step>)
    requires Started(y) && CanRun(y, steps)
    ensures var y' := AfterAll(y, steps);
      && y'.subscription.id == y.subscription.id && y'.subscription.wanted == y.subscription.wanted
      && ClientServed(y') && ServedAsWanted(y') && GetsWhatFits(y'.bus, y.subscription.id)
  {
    RunKeepsSubscription(y, steps);
    InvServesAsWanted(AfterAll(y, steps));
    InvServes(AfterAll(y, steps));
    SubscriberGetsWhatFits(AfterAll(y, steps).bus, y.subscription.id);
  }

  lemma StepThenRun(y: System, step: Step, steps: seq<Step>)
    requires CanStep(y, step) && CanRun(After(y, step), steps)
    ensures CanRun(y, [step] + steps) && AfterAll(y, [step] + steps) == AfterAll(After(y, step), steps)
  {
    assert ([step] + steps)[1..] == steps;
  }

  /** The goroutine takes the event in its channel; the client gets it if it is for the employee wanted. */
  lemma TakesItOn(y: System) returns (steps: seq<Step>)
    requires Inv(y.bus) && y.subscription.id in y.bus.channels && y.bus.channels[y.subscription.id].slot != []
    requires y.subscription.place.Waiting? && y.subscription.out == []
    ensures CanRun(y, steps)
    ensures var s, k := y.subscription, y.bus.channels[y.subscription.id].slot[0];
      && k < |y.bus.publications|
      && var forIt := s.wanted.None? || s.wanted.value == y.bus.publications[k].employeeId;
      && AfterAll(y, steps).bus.publications == y.bus.publications
      && AfterAll(y, steps).subscription == s.(delivered := s.delivered + if forIt then [k] else [])
  {
    SlotPublished(y.bus, y.subscription.id);
    var taken := After(y, TakeEvent);
    if taken.subscription.place.Holding? {
      var passed := After(taken, PassOn);
      StepThenRun(passed, ClientTakes, []);
      StepThenRun(taken, PassOn, [ClientTakes] + []);
      steps := [PassOn] + ([ClientTakes] + []);
    } else {
      steps := [];
    }
    StepThenRun(y, TakeEvent, steps);
    steps := [TakeEvent] + steps;
  }

  /** What is published while the channel is empty can be put there. */
  lemma CanOffer(y: System, t: nat, update: Update) returns (tried: System, steps: seq<Step>)
    requires Inv(y.bus) && y.bus.publishing == map[] && y.subscription.id in y.bus.subscribers
      && y.bus.channels[y.subscription.id].slot == []
    ensures |steps| == 2 && CanStep(y, steps[0]) && CanStep(After(y, steps[0]), steps[1])
    ensures tried == After(After(y, steps[0]), steps[1]) && Inv(tried.bus) && tried.subscription == y.subscription
    ensures tried.bus.publications == y.bus.publications + [update] && y.subscription.id in tried.bus.channels
      && tried.bus.channels[y.subscription.id].slot == [|y.bus.publications|]
  {
    var begin, try := BeginPublish(t, update), Try(t, y.subscription.id);
    StepKeeps(y.bus, begin);
    var begun := After(y, Elsewhere(begin));
    StepKeeps(begun.bus, try);
    tried, steps := After(begun, Elsewhere(try)), [Elsewhere(begin), Elsewhere(try)];
  }

  /** With nothing on its way to a client, what is published next can get there, and does so exactly if it is for the
      employee wanted. */
  lemma GetsThrough(y: System, t: nat, update: Update) returns (steps: seq<Step>)
    requires Inv(y.bus) && y.bus.publishing == map[] && y.subscription.id in y.bus.subscribers
      && y.bus.channels[y.subscription.id].slot == []
    requires y.subscription.place.Waiting? && y.subscription.out == []
    ensures CanRun(y, steps) && AfterAll(y, steps).bus.publications == y.bus.publications + [update]
    ensures var s := y.subscription;
      var forIt := s.wanted.None? || s.wanted.value == update.employeeId;
      AfterAll(y, steps).subscription == s.(delivered := s.delivered + if forIt then [|y.bus.publications|] else [])
  {
    var tried, first := CanOffer(y, t, update);
    var last := TakesItOn(tried);
    StepThenRun(After(y, first[0]), first[1], last);
    StepThenRun(y, first[0], [first[1]] + last);
    steps := [first[0]] + ([first[1]] + last);
  }

  /** Wherever the goroutine is, its client can go, and then it can come to its end, off the bus. */
  lemma CanEnd(y: System) returns (steps: seq<Step>)
    requires Inv(y.bus) && SubscriptionInv(y) && y.bus.publishing == map[]
    ensures CanRun(y, steps) && AfterAll(y, steps).subscription.place.Done?
    ensures AfterAll(y, steps).bus.subscribers == y.bus.subscribers - {y.subscription.id}
    ensures AfterAll(y, steps).subscription.delivered == y.subscription.delivered
    decreases match y.subscription.place
              case Done => 0
              case Closing => 1
              case Leaving => 2
              case _ => if y.subscription.cancelled then 3 else 4
  {
    if y.subscription.place.Done? {
      return [];
    }
    var step :=
      if y.subscription.place.Closing? then CloseOut
      else if y.subscription.place.Leaving? then LeaveBus
      else if y.subscription.cancelled then SeeCancelled else Cancel;
    StepKeepsSubscription(y, step);
    steps := CanEnd(After(y, step));
    StepThenRun(y, step, steps);
    steps := [step] + steps;
  }

  /** What the subscription can take from its channel has been published. */
  lemma SlotPublished(b: Bus, id: nat)
    requires Inv(b) && id in b.channels && b.channels[id].slot != []
    ensures b.channels[id].slot[0] < |b.publications|
  {
    var c := b.channels[id];
    assert OfferedWhileThere(b, id);
    AcceptedOnce(c.offers);
    assert c.slot[0] in c.received + c.slot;
    var i :| 0 <= i < |c.offers| && c.offers[i] == Offer(c.slot[0], true);
    assert Offered(c, c.slot[0]);
  }

  /** The client of a subscription gets only events for the employee it asked for. */
  lemma {:induction false} MatchingMatches(wanted: Option<string>, publications: seq<Update>, ks: seq<nat>)
    requires Published(ks, publications)
    ensures Published(Matching(wanted, publications, ks), publications)
    ensures forall k <- Matching(wanted, publications, ks) ::
      k in ks && k < |publications| && Wants(wanted, publications[k])
    ensures forall k <- ks ::
      k < |publications| && (Wants(wanted, publications[k]) ==> k in Matching(wanted, publications, ks))
  {
    if ks != [] {
      MatchingMatches(wanted, publications, ks[..|ks| - 1]);
    }
  }

  // ------------------------------------------------------------------ publishing one at a time

  /** Others publish only while nobody is publishing, as those that update employees do. */
  predicate PublishedInTurn(y: System, steps: seq<Step>)
    requires CanRun(y, steps)
    decreases |steps|
  {
    steps == [] ||
    ((steps[0].Elsewhere? && steps[0].action.BeginPublish? ==> y.bus.publishing == map[])
     && PublishedInTurn(After(y, steps[0]), steps[1..]))
  }

  lemma StepKeepsOrder(y: System, step: Step)
    requires Inv(y.bus) && InOrder(y.bus) && SubscriptionInv(y) && CanStep(y, step)
    requires step.Elsewhere? && step.action.BeginPublish? ==> y.bus.publishing == map[]
    ensures InOrder(After(y, step).bus)
  {
    match step
    case Elsewhere(a) => OrderStepKeeps(y.bus, a);
    case TakeEvent => OrderStepKeeps(y.bus, Receive(y.subscription.id));
    case LeaveBus => OrderStepKeeps(y.bus, Action.Unsubscribe(y.subscription.id));
    case _ => OwnStepKeeps(y, step);
  }

  lemma {:induction false} RunKeepsOrder(y: System, steps: seq<Step>)
    requires Inv(y.bus) && InOrder(y.bus) && SubscriptionInv(y) && CanRun(y, steps) && PublishedInTurn(y, steps)
    ensures Inv(AfterAll(y, steps).bus) && SubscriptionInv(AfterAll(y, steps)) && InOrder(AfterAll(y, steps).bus)
    decreases |steps|
  {
    if steps != [] {
      StepKeepsSubscription(y, steps[0]);
      StepKeepsOrder(y, steps[0]);
      RunKeepsOrder(After(y, steps[0]), steps[1..]);
    }
  }

  lemma {:induction false} MatchingInOrder(wanted: Option<string>, publications: seq<Update>, ks: seq<nat>)
    requires Published(ks, publications) && Increasing(ks)
    ensures Increasing(Matching(wanted, publications, ks))
  {
    if ks != [] {
      var front := ks[..|ks| - 1];
      MatchingInOrder(wanted, publications, front);
      MatchingMatches(wanted, publications, front);
      var before := Matching(wanted, publications, front);
      forall i | 0 <= i < |before|
        ensures before[i] < ks[|ks| - 1]
      {
        assert before[i] in before;
      }
    }
  }

  /** When publishers wait for each other, a client is delivered events in the order they were published, and every one
      of them is for the employee it asked for. */
  lemma DeliveredInOrder(before: seq<Action>, y: System, steps: seq<Step>)
    requires Runs(NewBus(), before) && OneAtATime(NewBus(), before) && y.bus == EventBus.After(NewBus(), before)
    requires Started(y) && CanRun(y, steps) && PublishedInTurn(y, steps)
    ensures var y' := AfterAll(y, steps);
      && Increasing(y'.subscription.delivered)
      && forall k <- y'.subscription.delivered ::
           && k < |y'.bus.publications|
           && (y.subscription.wanted.Some? ==> y'.bus.publications[k].employeeId == y.subscription.wanted.value)
  {
    EventBus.RunKeeps(NewBus(), before);
    OrderRunKeeps(NewBus(), before);
    RunKeepsOrder(y, steps);
    RunKeepsSubscription(y, steps);
    var y' := AfterAll(y, steps);
    var c, s := y'.bus.channels[y'.subscription.id], y'.subscription;
    ReceivedIsInOrder(c);
    MatchingInOrder(s.wanted, y'.bus.publications, c.received);
    MatchingMatches(s.wanted, y'.bus.publications, c.received);
    InvServes(y');
    var matching := Matching(s.wanted, y'.bus.publications, c.received);
    forall i | 0 <= i < |s.delivered|
      ensures s.delivered[i] == matching[i] && s.delivered[i] in matching
    {
    }
  }
}
