// The event bus: subscribers come and go and events are published, all at once. A step is what one goroutine does
// between two points where another may get in the way.
module EventBus {

  /** An update of an employee, as far as a subscriber can tell updates apart. */
  datatype Update = Update(employeeId: string)

  /** An event offered to a channel: which publication it was, and whether the channel's one slot was free. */
  datatype Offer = Offer(publication: nat, free: bool)

  /** A channel with one slot. What it has been offered and what has been received from it is kept for the record;
      `since` and `until` tell how many publications had begun when it entered and when it left the map. */
  datatype Channel = Channel(slot: seq<nat>, closed: bool, offers: seq<Offer>, received: seq<nat>, since: nat,
      until: nat)

  /** A publisher that holds the read lock: which publication it is, and which subscribers it has still to try. */
  datatype Publishing = Publishing(publication: nat, left: set<nat>)

  /** `allotted` are the ids whose channels are not in the map yet. Sending on a closed channel, or closing one
      twice, is a panic. */
  datatype Bus = Bus(channels: map<nat, Channel>, subscribers: set<nat>, allotted: set<nat>, nextId: nat,
                     publications: seq<Update>, publishing: map<nat, Publishing>, panicked: bool)

  datatype Action =
    | TakeId
    | Register(id: nat)
    | Unsubscribe(id: nat)
    | BeginPublish(thread: nat, update: Update)
    | Try(thread: nat, id: nat)
    | EndPublish(thread: nat)
    | Receive(id: nat)

  function NewBus(): Bus {
    Bus(map[], {}, {}, 0, [], map[], false)
  }

  /** Register and Unsubscribe hold the write lock, so no publisher may hold the read lock. */
  predicate Enabled(b: Bus, a: Action) {
    match a
    case TakeId => true
    case Register(id) => b.publishing == map[] && id in b.allotted && id in b.channels
    case Unsubscribe(_) => b.publishing == map[]
    case BeginPublish(t, _) => t !in b.publishing
    case Try(t, id) => t in b.publishing && id in b.publishing[t].left && id in b.channels
    case EndPublish(t) => t in b.publishing && b.publishing[t].left == {}
    case Receive(id) => id in b.channels && b.channels[id].slot != []
  }

  /** A send that does not wait: it fills the slot if the slot is free, and is dropped otherwise. */
  function Sent(c: Channel, publication: nat): Channel {
    if c.slot == [] then c.(slot := [publication], offers := c.offers + [Offer(publication, true)])
    else c.(offers := c.offers + [Offer(publication, false)])
  }

  function Next(b: Bus, a: Action): Bus
    requires Enabled(b, a)
  {
    match a
    case TakeId =>
      var id := b.nextId + 1;
      b.(nextId := id, allotted := b.allotted + {id}, channels := b.channels[id := Channel([], false, [], [], 0, 0)])
    case Register(id) =>
      b.(allotted := b.allotted - {id}, subscribers := b.subscribers + {id},
         channels := b.channels[id := b.channels[id].(since := |b.publications|)])
    case Unsubscribe(id) =>
      if id !in b.subscribers || id !in b.channels then b
      else
        b.(subscribers := b.subscribers - {id}, panicked := b.panicked || b.channels[id].closed,
           channels := b.channels[id := b.channels[id].(closed := true, until := |b.publications|)])
    case BeginPublish(t, update) =>
      b.(publications := b.publications + [update],
         publishing := b.publishing[t := Publishing(|b.publications|, b.subscribers)])
    case Try(t, id) =>
      var p := b.publishing[t];
      b.(publishing := b.publishing[t := p.(left := p.left - {id})], panicked := b.panicked || b.channels[id].closed,
         channels := b.channels[id := Sent(b.channels[id], p.publication)])
    case EndPublish(t) =>
      b.(publishing := b.publishing - {t})
    case Receive(id) =>
      var c := b.channels[id];
      b.(channels := b.channels[id := c.(slot := c.slot[1..], received := c.received + [c.slot[0]])])
  }

  // ------------------------------------------------------------------ what every step keeps

  /** The publications that found the slot free, in order. */
  function Accepted(offers: seq<Offer>): seq<nat> {
    if offers == [] then []
    else
      var last := offers[|offers| - 1];
      Accepted(offers[..|offers| - 1]) + if last.free then [last.publication] else []
  }

  /** Nothing is lost or duplicated between slot and receiver. */
  predicate Faithful(c: Channel) {
    |c.slot| <= 1 && c.received + c.slot == Accepted(c.offers)
  }

  predicate Offered(c: Channel, publication: nat) {
    exists i | 0 <= i < |c.offers| :: c.offers[i].publication == publication
  }

  /** No publication is offered twice. */
  predicate OfferedOnce(c: Channel) {
    forall i, j | 0 <= i < j < |c.offers| :: c.offers[i].publication != c.offers[j].publication
  }

  /** A publisher has yet to try the channel. */
  predicate Awaited(b: Bus, id: nat, publication: nat) {
    exists t :: t in b.publishing && b.publishing[t].publication == publication && id in b.publishing[t].left
  }

  /** The publications that had begun by the time the channel left the map, or by now. */
  function Horizon(b: Bus, c: Channel): nat {
    if c.closed then c.until else |b.publications|
  }

  /** A channel in the map is offered, once, just what is published while it is there. */
  ghost predicate OfferedWhileThere(b: Bus, id: nat)
    requires id in b.channels
  {
    var c := b.channels[id];
    && OfferedOnce(c) && c.since <= Horizon(b, c) <= |b.publications|
    && (forall k: nat :: Awaited(b, id, k) ==> c.since <= k < Horizon(b, c))
    && (forall k: nat :: Offered(c, k) ==> c.since <= k < Horizon(b, c) && !Awaited(b, id, k))
    && (id !in b.allotted ==> forall k | c.since <= k < Horizon(b, c) :: Offered(c, k) || Awaited(b, id, k))
    && (id in b.allotted ==> c.offers == [])
  }

  /** The map holds exactly the open channels, and publishers only try channels in the map. */
  ghost predicate MapHoldsOpen(b: Bus) {
    && !b.panicked
    && b.subscribers + b.allotted <= b.channels.Keys && b.subscribers !! b.allotted
    && (forall id <- b.channels ::
          id <= b.nextId && (b.channels[id].closed <==> id !in b.subscribers && id !in b.allotted))
    && (forall t <- b.publishing ::
          b.publishing[t].left <= b.subscribers && b.publishing[t].publication < |b.publications|)
    && (forall t <- b.publishing, u <- b.publishing | b.publishing[t].publication == b.publishing[u].publication ::
          t == u)
  }

  ghost predicate Inv(b: Bus) {
    && MapHoldsOpen(b)
    && (forall id <- b.channels :: Faithful(b.channels[id]))
    && (forall id <- b.channels :: OfferedWhileThere(b, id))
  }

  lemma MapStepKeeps(b: Bus, a: Action)
    requires MapHoldsOpen(b) && Enabled(b, a)
    ensures MapHoldsOpen(Next(b, a))
  {
  }

  lemma FaithfulStepKeeps(b: Bus, a: Action, id: nat)
    requires (forall i <- b.channels :: Faithful(b.channels[i])) && Enabled(b, a) && id in Next(b, a).channels
    ensures Faithful(Next(b, a).channels[id])
  {
    var c' := Next(b, a).channels[id];
    if id in b.channels && a.Try? && a.id == id {
      var c := b.channels[id];
      assert c'.offers[..|c.offers|] == c.offers;
    }
  }

  lemma OfferNext(c: Channel, c': Channel, o: Offer, k: nat)
    requires c'.offers == c.offers + [o]
    ensures Offered(c', k) <==> Offered(c, k) || k == o.publication
  {
    if Offered(c, k) {
      var i :| 0 <= i < |c.offers| && c.offers[i].publication == k;
      assert c'.offers[i].publication == k;
    }
    assert c'.offers[|c.offers|] == o;
  }

  /** A channel that is tried. */
  lemma TriedKeeps(b: Bus, a: Action)
    requires MapHoldsOpen(b) && a.Try? && Enabled(b, a) && OfferedWhileThere(b, a.id)
    ensures OfferedWhileThere(Next(b, a), a.id)
  {
    var b', id, n := Next(b, a), a.id, b.publishing[a.thread].publication;
    var c, c' := b.channels[id], b'.channels[id];
    assert Awaited(b, id, n);
    assert !Offered(c, n);
    var o := c'.offers[|c.offers|];
    forall k: nat
      ensures Offered(c', k) <==> Offered(c, k) || k == n
      ensures Awaited(b', id, k) <==> Awaited(b, id, k) && k != n
    {
      OfferNext(c, c', o, k);
      AwaitedAfterTry(b, a, id, k);
    }
    forall i, j | 0 <= i < j < |c'.offers|
      ensures c'.offers[i].publication != c'.offers[j].publication
    {
      if j == |c.offers| {
        assert Offered(c, c.offers[i].publication);
      }
    }
  }

  lemma AwaitedAfterTry(b: Bus, a: Action, id: nat, k: nat)
    requires MapHoldsOpen(b) && a.Try? && Enabled(b, a)
    ensures Awaited(Next(b, a), id, k)
      <==> Awaited(b, id, k) && !(id == a.id && k == b.publishing[a.thread].publication)
  {
    var b' := Next(b, a);
    if Awaited(b, id, k) {
      var t :| t in b.publishing && b.publishing[t].publication == k && id in b.publishing[t].left;
      assert t in b'.publishing && b'.publishing[t].publication == k;
    }
  }

  lemma AwaitedStays(b: Bus, b': Bus, id: nat, k: nat)
    requires forall t <- b.publishing ::
      id in b.publishing[t].left ==> t in b'.publishing && b'.publishing[t] == b.publishing[t]
    requires forall t <- b'.publishing ::
      id in b'.publishing[t].left ==> t in b.publishing && b.publishing[t] == b'.publishing[t]
    ensures Awaited(b', id, k) <==> Awaited(b, id, k)
  {
  }

  /** A channel nothing happens to but that it may be received from. */
  lemma OthersKeep(b: Bus, a: Action, id: nat)
    requires MapHoldsOpen(b) && Enabled(b, a) && id in b.channels && OfferedWhileThere(b, id)
    requires a.TakeId? || a.EndPublish? || a.Receive? || (a.Register? && a.id != id) || (a.Unsubscribe? && a.id != id)
      || (a.Try? && a.id != id)
    ensures OfferedWhileThere(Next(b, a), id)
  {
    var b' := Next(b, a);
    var c, c' := b.channels[id], b'.channels[id];
    forall k: nat
      ensures Offered(c', k) <==> Offered(c, k)
      ensures Awaited(b', id, k) <==> Awaited(b, id, k)
    {
      if a.Try? {
        AwaitedAfterTry(b, a, id, k);
      } else {
        AwaitedStays(b, b', id, k);
      }
    }
  }

  lemma BeginKeeps(b: Bus, a: Action, id: nat)
    requires MapHoldsOpen(b) && a.BeginPublish? && Enabled(b, a) && id in b.channels && OfferedWhileThere(b, id)
    ensures OfferedWhileThere(Next(b, a), id)
  {
    var b', n := Next(b, a), |b.publications|;
    var c := b.channels[id];
    forall k: nat
      ensures Awaited(b', id, k) <==> Awaited(b, id, k) || (k == n && id in b.subscribers)
    {
      if Awaited(b, id, k) {
        var t :| t in b.publishing && b.publishing[t].publication == k && id in b.publishing[t].left;
        assert t in b'.publishing && b'.publishing[t] == b.publishing[t];
      }
      assert b'.publishing[a.thread] == Publishing(n, b.subscribers);
    }
  }

  lemma ComesAndGoes(b: Bus, a: Action)
    requires MapHoldsOpen(b) && (a.Register? || a.Unsubscribe?) && Enabled(b, a) && a.id in b.channels
      && OfferedWhileThere(b, a.id)
    ensures OfferedWhileThere(Next(b, a), a.id)
  {
    var b', id := Next(b, a), a.id;
    var c, c' := b.channels[id], b'.channels[id];
    forall k: nat
      ensures Offered(c', k) <==> Offered(c, k)
      ensures !Awaited(b', id, k) && !Awaited(b, id, k)
    {
    }
  }

  lemma StepKeeps(b: Bus, a: Action)
    requires Inv(b) && Enabled(b, a)
    ensures Inv(Next(b, a))
  {
    MapStepKeeps(b, a);
    forall id <- Next(b, a).channels
      ensures Faithful(Next(b, a).channels[id]) && OfferedWhileThere(Next(b, a), id)
    {
      FaithfulStepKeeps(b, a, id);
      ChannelStepKeeps(b, a, id);
    }
  }

  lemma ChannelStepKeeps(b: Bus, a: Action, id: nat)
    requires Inv(b) && Enabled(b, a) && id in Next(b, a).channels
    ensures OfferedWhileThere(Next(b, a), id)
  {
    if id !in b.channels {
      NewChannel(b, a, id);
    } else if a.BeginPublish? {
      BeginKeeps(b, a, id);
    } else if a.Try? && a.id == id {
      TriedKeeps(b, a);
    } else if (a.Register? || a.Unsubscribe?) && a.id == id {
      ComesAndGoes(b, a);
    } else {
      OthersKeep(b, a, id);
    }
  }

  lemma NewChannel(b: Bus, a: Action, id: nat)
    requires Inv(b) && Enabled(b, a) && id in Next(b, a).channels && id !in b.channels
    ensures OfferedWhileThere(Next(b, a), id)
  {
    forall k: nat
      ensures !Offered(Next(b, a).channels[id], k)
    {
    }
  }

  // ------------------------------------------------------------------ runs

  predicate Runs(b: Bus, actions: seq<Action>)
    decreases |actions|
  {
    actions == [] || (Enabled(b, actions[0]) && Runs(Next(b, actions[0]), actions[1..]))
  }

  function After(b: Bus, actions: seq<Action>): Bus
    requires Runs(b, actions)
    decreases |actions|
  {
    if actions == [] then b else After(Next(b, actions[0]), actions[1..])
  }

  lemma {:induction false} RunKeeps(b: Bus, actions: seq<Action>)
    requires Inv(b) && Runs(b, actions)
    ensures Inv(After(b, actions))
    decreases |actions|
  {
    if actions != [] {
      StepKeeps(b, actions[0]);
      RunKeeps(Next(b, actions[0]), actions[1..]);
    }
  }

  /** In every interleaving nothing is sent on a closed channel, no channel is closed twice, and the map holds exactly
      the channels that have entered it and are open. */
  lemma MapHoldsExactlyOpen(actions: seq<Action>)
    requires Runs(NewBus(), actions)
    ensures var b := After(NewBus(), actions);
      && !b.panicked
      && forall id :: id in b.subscribers <==> id in b.channels && id !in b.allotted && !b.channels[id].closed
  {
    RunKeeps(NewBus(), actions);
  }

  lemma {:induction false} AcceptedOnce(offers: seq<Offer>)
    requires forall i, j | 0 <= i < j < |offers| :: offers[i].publication != offers[j].publication
    ensures forall k <- Accepted(offers) :: exists i | 0 <= i < |offers| :: offers[i] == Offer(k, true)
    ensures forall i, j | 0 <= i < j < |Accepted(offers)| :: Accepted(offers)[i] != Accepted(offers)[j]
  {
    if offers != [] {
      var front, last := offers[..|offers| - 1], offers[|offers| - 1];
      AcceptedOnce(front);
      forall k <- Accepted(offers)
        ensures exists i | 0 <= i < |offers| :: offers[i] == Offer(k, true)
      {
        if k in Accepted(front) {
          var i :| 0 <= i < |front| && front[i] == Offer(k, true);
          assert offers[i] == Offer(k, true);
        } else {
          assert offers[|offers| - 1] == Offer(k, true);
        }
      }
      forall i, j | 0 <= i < j < |Accepted(offers)|
        ensures Accepted(offers)[i] != Accepted(offers)[j]
      {
        if j == |Accepted(front)| {
          assert Accepted(front)[i] in Accepted(front);
        }
      }
    }
  }

  /** What a subscriber has received: the events that found its slot free, in order and none twice, of those published
      while it was in the map. Once no publisher is at work, it has been offered all of these. */
  ghost predicate GetsWhatFits(b: Bus, id: nat)
    requires id in b.channels
  {
    var c := b.channels[id];
    && c.received + c.slot == Accepted(c.offers) && |c.slot| <= 1
    && (forall i, j | 0 <= i < j < |c.received| :: c.received[i] != c.received[j])
    && (forall k <- c.received :: c.since <= k < Horizon(b, c))
    && (b.publishing == map[] && id !in b.allotted ==> forall k | c.since <= k < Horizon(b, c) :: Offered(c, k))
  }

  lemma SubscriberGetsWhatFits(b: Bus, id: nat)
    requires Inv(b) && id in b.channels
    ensures GetsWhatFits(b, id)
  {
    var c := b.channels[id];
    assert OfferedWhileThere(b, id);
    AcceptedOnce(c.offers);
    forall i, j | 0 <= i < j < |c.received|
      ensures c.received[i] != c.received[j]
    {
      assert (c.received + c.slot)[i] != (c.received + c.slot)[j];
    }
    forall k <- c.received
      ensures c.since <= k < Horizon(b, c)
    {
      assert k in c.received + c.slot;
      var i :| 0 <= i < |c.offers| && c.offers[i] == Offer(k, true);
      assert Offered(c, k);
    }
  }

  /** So it is in every interleaving. */
  lemma SubscriberGets(actions: seq<Action>, id: nat)
    requires Runs(NewBus(), actions) && id in After(NewBus(), actions).channels
    ensures GetsWhatFits(After(NewBus(), actions), id)
  {
    RunKeeps(NewBus(), actions);
    SubscriberGetsWhatFits(After(NewBus(), actions), id);
  }

  // ------------------------------------------------------------------ a publisher left to itself

  lemma StepThenRun(b: Bus, a: Action, actions: seq<Action>)
    requires Enabled(b, a) && Runs(Next(b, a), actions)
    ensures Runs(b, [a] + actions) && After(b, [a] + actions) == After(Next(b, a), actions)
  {
    assert ([a] + actions)[1..] == actions;
  }

  /** The publisher has tried all but those left. */
  ghost predicate TriedBut(b: Bus, b': Bus, left: set<nat>, n: nat) {
    && b'.channels.Keys == b.channels.Keys && b'.subscribers == b.subscribers
    && forall id <- b.channels :: b'.channels[id].slot ==
         if id in b.subscribers && id !in left && b.channels[id].slot == [] then [n] else b.channels[id].slot
  }

  /** The actions are the publisher's own: it tries a subscriber, or ends. */
  predicate OwnActions(t: nat, actions: seq<Action>) {
    forall a <- actions :: (a.Try? && a.thread == t) || a == EndPublish(t)
  }

  lemma NothingToDo(b: Bus, t: nat, actions: seq<Action>)
    requires b.publishing == map[] && actions != [] && OwnActions(t, actions)
    ensures !Runs(b, actions)
  {
    assert actions[0] in actions;
  }

  /** In whatever order it tries them, once it has ended it has tried all. */
  lemma {:induction false} TriesAll(b: Bus, b': Bus, t: nat, actions: seq<Action>)
    requires b'.publishing.Keys == {t} && b'.publishing[t].left <= b.subscribers <= b.channels.Keys
    requires TriedBut(b, b', b'.publishing[t].left, b'.publishing[t].publication)
    requires Runs(b', actions) && OwnActions(t, actions) && After(b', actions).publishing == map[]
    ensures TriedBut(b, After(b', actions), {}, b'.publishing[t].publication)
    ensures After(b', actions).publications == b'.publications
    decreases |actions|
  {
    var a, rest := actions[0], actions[1..];
    assert a in actions && forall r <- rest :: r in actions;
    if a == EndPublish(t) {
      if rest != [] {
        NothingToDo(Next(b', a), t, rest);
        assert false;
      }
    } else {
      TriesAll(b, Next(b', a), t, rest);
    }
  }

  lemma {:induction false} CanTryAll(b: Bus, t: nat) returns (actions: seq<Action>)
    requires b.publishing.Keys == {t} && b.publishing[t].left <= b.channels.Keys
    ensures Runs(b, actions) && OwnActions(t, actions) && After(b, actions).publishing == map[]
    decreases b.publishing[t].left
  {
    if b.publishing[t].left == {} {
      StepThenRun(b, EndPublish(t), []);
      actions := [EndPublish(t)] + [];
    } else {
      var id :| id in b.publishing[t].left;
      var rest := CanTryAll(Next(b, Try(t, id)), t);
      StepThenRun(b, Try(t, id), rest);
      actions := [Try(t, id)] + rest;
    }
  }

  /** A publisher nobody gets in the way of, from beginning to end and in whatever order it tries the subscribers,
      reaches every one whose slot is free, and no other slot changes. */
  lemma UndisturbedPublish(b: Bus, t: nat, update: Update, actions: seq<Action>)
    requires Inv(b) && b.publishing == map[]
    requires Runs(b, [BeginPublish(t, update)] + actions) && OwnActions(t, actions)
    requires After(b, [BeginPublish(t, update)] + actions).publishing == map[]
    ensures var b' := After(b, [BeginPublish(t, update)] + actions);
      TriedBut(b, b', {}, |b.publications|) && b'.publications == b.publications + [update]
  {
    var begin := BeginPublish(t, update);
    assert ([begin] + actions)[1..] == actions;
    TriesAll(b, Next(b, begin), t, actions);
  }

  /** And it can get to its end. */
  lemma PublishCanEnd(b: Bus, t: nat, update: Update) returns (actions: seq<Action>)
    requires Inv(b) && b.publishing == map[]
    ensures Runs(b, [BeginPublish(t, update)] + actions) && OwnActions(t, actions)
    ensures After(b, [BeginPublish(t, update)] + actions).publishing == map[]
  {
    actions := CanTryAll(Next(b, BeginPublish(t, update)), t);
    StepThenRun(b, BeginPublish(t, update), actions);
  }

  /** While nobody publishes, somebody can subscribe, and gets a new id and an open channel with nothing in it. */
  lemma CanSubscribe(b: Bus) returns (b': Bus)
    requires Inv(b) && b.publishing == map[]
    ensures var id, actions := b.nextId + 1, [TakeId, Register(b.nextId + 1)];
      && Runs(b, actions) && b' == After(b, actions) && Inv(b') && b'.publishing == map[]
      && id !in b.channels && b'.subscribers == b.subscribers + {id} && b'.publications == b.publications
      && b'.channels == b.channels[id := Channel([], false, [], [], |b.publications|, 0)]
  {
    var id := b.nextId + 1;
    var allotted := Next(b, TakeId);
    StepKeeps(b, TakeId);
    StepKeeps(allotted, Register(id));
    b' := Next(allotted, Register(id));
    TwoSteps(b, TakeId, Register(id));
  }

  lemma TwoSteps(b: Bus, a: Action, a': Action)
    requires Enabled(b, a) && Enabled(Next(b, a), a')
    ensures Runs(b, [a, a']) && After(b, [a, a']) == Next(Next(b, a), a')
  {
    StepThenRun(Next(b, a), a', []);
    assert [a'] + [] == [a'] && [a] + [a'] == [a, a'];
    StepThenRun(b, a, [a']);
  }

  // ------------------------------------------------------------------ publishing one at a time

  /** Publishers wait for each other, as those that update employees do, under the lock on the employees. */
  predicate OneAtATime(b: Bus, actions: seq<Action>)
    requires Runs(b, actions)
    decreases |actions|
  {
    actions == []
      || ((actions[0].BeginPublish? ==> b.publishing == map[]) && OneAtATime(Next(b, actions[0]), actions[1..]))
  }

  predicate Increasing(ks: seq<nat>) {
    forall i, j | 0 <= i < j < |ks| :: ks[i] < ks[j]
  }

  predicate OfferedInOrder(c: Channel) {
    forall i, j | 0 <= i < j < |c.offers| :: c.offers[i].publication < c.offers[j].publication
  }

  ghost predicate InOrder(b: Bus) {
    && (forall t <- b.publishing :: b.publishing[t].publication == |b.publications| - 1)
    && (forall id <- b.channels :: OfferedInOrder(b.channels[id]))
  }

  lemma OrderStepKeeps(b: Bus, a: Action)
    requires Inv(b) && InOrder(b) && Enabled(b, a) && (a.BeginPublish? ==> b.publishing == map[])
    ensures InOrder(Next(b, a))
  {
    forall id <- Next(b, a).channels
      ensures OfferedInOrder(Next(b, a).channels[id])
    {
      if a.Try? && id == a.id {
        TryKeepsOrder(b, a);
      } else if id in b.channels {
        assert Next(b, a).channels[id].offers == b.channels[id].offers && OfferedInOrder(b.channels[id]);
      }
    }
  }

  lemma TryKeepsOrder(b: Bus, a: Action)
    requires Inv(b) && InOrder(b) && a.Try? && Enabled(b, a)
    ensures OfferedInOrder(Next(b, a).channels[a.id])
  {
    var c, n := b.channels[a.id], b.publishing[a.thread].publication;
    assert OfferedWhileThere(b, a.id) && Awaited(b, a.id, n);
    forall i | 0 <= i < |c.offers|
      ensures c.offers[i].publication < n
    {
      assert Offered(c, c.offers[i].publication);
    }
  }

  lemma {:induction false} OrderRunKeeps(b: Bus, actions: seq<Action>)
    requires Inv(b) && InOrder(b) && Runs(b, actions) && OneAtATime(b, actions)
    ensures InOrder(After(b, actions))
    decreases |actions|
  {
    if actions != [] {
      StepKeeps(b, actions[0]);
      OrderStepKeeps(b, actions[0]);
      OrderRunKeeps(Next(b, actions[0]), actions[1..]);
    }
  }

  lemma {:induction false} AcceptedInOrder(offers: seq<Offer>)
    requires forall i, j | 0 <= i < j < |offers| :: offers[i].publication < offers[j].publication
    ensures forall k <- Accepted(offers) :: offers != [] && k <= offers[|offers| - 1].publication
    ensures Increasing(Accepted(offers))
  {
    if offers != [] {
      var front := offers[..|offers| - 1];
      AcceptedInOrder(front);
      forall i, j | 0 <= i < j < |Accepted(offers)|
        ensures Accepted(offers)[i] < Accepted(offers)[j]
      {
        assert j == |Accepted(front)| ==> Accepted(front)[i] in Accepted(front);
      }
    }
  }

  lemma ReceivedIsInOrder(c: Channel)
    requires Faithful(c) && OfferedInOrder(c)
    ensures Increasing(c.received)
  {
    AcceptedInOrder(c.offers);
    forall i, j | 0 <= i < j < |c.received|
      ensures c.received[i] < c.received[j]
    {
      assert (c.received + c.slot)[i] < (c.received + c.slot)[j];
    }
  }

  /** When publishers wait for each other, every subscriber receives events in the order they were published. */
  lemma ReceivedInOrder(actions: seq<Action>, id: nat)
    requires Runs(NewBus(), actions) && OneAtATime(NewBus(), actions) && id in After(NewBus(), actions).channels
    ensures Increasing(After(NewBus(), actions).channels[id].received)
  {
    RunKeeps(NewBus(), actions);
    OrderRunKeeps(NewBus(), actions);
    ReceivedIsInOrder(After(NewBus(), actions).channels[id]);
  }
}
