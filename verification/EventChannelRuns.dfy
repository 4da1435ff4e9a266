/** What every run of the event channel keeps: delivery order, conservation of transactions, subscriptions. */
module EventChannelRuns {
  import opened Wrappers
  import opened LinkedList
  import opened AsyncResponse
  import opened Json
  import opened EventChannel

  // ---- Delivery order ------------------------------------------------------------------------------------

  function Joined(a: Events, b: Events): Events {
    Events(a.registrations + b.registrations, a.updates + b.updates, a.deregistrations + b.deregistrations,
           a.completed + b.completed)
  }

  function Reversed(a: Events): Events {
    Events(Reverse(a.registrations), Reverse(a.updates), Reverse(a.deregistrations), Reverse(a.completed))
  }

  /** The delivered bodies, each turned round, and then the queues, turned round. */
  function Chronological(delivered: seq<Events>, queues: Events): Events {
    if delivered == [] then Reversed(queues)
    else Joined(Reversed(delivered[0]), Chronological(delivered[1..], queues))
  }

  /** Each kind of event is delivered once, in order of arrival, newest first within a body; nothing is lost. */
  ghost predicate InOrder(s: State) {
    Chronological(s.delivered, s.queues) == s.arrived
  }

  lemma ReversedJoined(a: Events, b: Events)
    ensures Reversed(Joined(a, b)) == Joined(Reversed(b), Reversed(a))
  {
    ReverseConcat(a.registrations, b.registrations);
    ReverseConcat(a.updates, b.updates);
    ReverseConcat(a.deregistrations, b.deregistrations);
    ReverseConcat(a.completed, b.completed);
  }

  lemma JoinedAssociates(a: Events, b: Events, c: Events)
    ensures Joined(Joined(a, b), c) == Joined(a, Joined(b, c))
  {
    ConcatAssociates(a.registrations, b.registrations, c.registrations);
    ConcatAssociates(a.updates, b.updates, c.updates);
    ConcatAssociates(a.deregistrations, b.deregistrations, c.deregistrations);
    ConcatAssociates(a.completed, b.completed, c.completed);
  }

  lemma {:induction false} ArrivalInFront(delivered: seq<Events>, queues: Events, arrival: Events)
    ensures Chronological(delivered, Joined(arrival, queues))
            == Joined(Chronological(delivered, queues), Reversed(arrival))
  {
    if delivered == [] {
      ReversedJoined(arrival, queues);
    } else {
      ArrivalInFront(delivered[1..], queues, arrival);
      JoinedAssociates(Reversed(delivered[0]), Chronological(delivered[1..], queues), Reversed(arrival));
    }
  }

  lemma {:induction false} BodyDelivered(delivered: seq<Events>, queues: Events)
    ensures Chronological(delivered + [queues], NO_EVENTS) == Chronological(delivered, queues)
  {
    if delivered == [] {
      assert Chronological([queues], NO_EVENTS) == Joined(Reversed(queues), Reversed(NO_EVENTS));
    } else {
      BodyDelivered(delivered[1..], queues);
      assert (delivered + [queues])[1..] == delivered[1..] + [queues];
    }
  }

  /** The arrival of one event, of any kind. */
  lemma OneArrival(s: State, arrival: Events, t: State)
    requires InOrder(s) && Reversed(arrival) == arrival
    requires t.delivered == s.delivered
    requires t.queues == Joined(arrival, s.queues) && t.arrived == Joined(s.arrived, arrival)
    ensures InOrder(t)
  {
    ArrivalInFront(s.delivered, s.queues, arrival);
  }

  lemma NothingJoins(a: Events)
    ensures Joined(NO_EVENTS, a) == a == Joined(a, NO_EVENTS)
  {
    assert [] + a.registrations == a.registrations == a.registrations + [];
    assert [] + a.updates == a.updates == a.updates + [];
    assert [] + a.deregistrations == a.deregistrations == a.deregistrations + [];
    assert [] + a.completed == a.completed == a.completed + [];
  }

  lemma RecordArrives(s: State, record: Record, t: State)
    requires InOrder(s)
    requires t.delivered == s.delivered
    requires t.queues == Queued(s, record).queues && t.arrived == Queued(s, record).arrived
    ensures InOrder(t)
  {
    NothingJoins(s.queues);
    NothingJoins(s.arrived);
    OneArrival(s, NO_EVENTS.(completed := [record]), t);
  }

  lemma RegistrationArrives(s: State, name: string)
    requires InOrder(s)
    ensures InOrder(Step(s, Registered(name)))
  {
    NothingJoins(s.queues);
    NothingJoins(s.arrived);
    OneArrival(s, NO_EVENTS.(registrations := [name]), Step(s, Registered(name)));
  }

  lemma UpdateArrives(s: State, name: string)
    requires InOrder(s)
    ensures InOrder(Step(s, Updated(name)))
  {
    NothingJoins(s.queues);
    NothingJoins(s.arrived);
    OneArrival(s, NO_EVENTS.(updates := [name]), Step(s, Updated(name)));
  }

  lemma DeregistrationArrives(s: State, name: string)
    requires InOrder(s)
    ensures InOrder(Step(s, Deregistered(name)))
  {
    NothingJoins(s.queues);
    NothingJoins(s.arrived);
    OneArrival(s, NO_EVENTS.(deregistrations := [name]), Step(s, Deregistered(name)));
  }

  lemma StepKeepsInOrder(s: State, e: Event)
    requires InOrder(s)
    ensures InOrder(Step(s, e))
  {
    match e
    case Complete(record) => RecordArrives(s, record, Step(s, e));
    case Notify(_, record) => RecordArrives(s, record, Step(s, e));
    case Registered(name) => RegistrationArrives(s, name);
    case Updated(name) => UpdateArrives(s, name);
    case Deregistered(name) => DeregistrationArrives(s, name);
    case Pull => BodyDelivered(s.delivered, s.queues);
    case Send(_) => BodyDelivered(s.delivered, s.queues);
    case _ =>
  }

  /** Over any run, interleaving arrivals, pulls, and successful and failed sends. */
  lemma {:induction false} RunKeepsInOrder(s: State, events: seq<Event>)
    requires InOrder(s)
    ensures InOrder(Run(s, events))
    decreases |events|
  {
    if events != [] {
      StepKeepsInOrder(s, events[0]);
      RunKeepsInOrder(Step(s, events[0]), events[1..]);
    }
  }

  function WithoutFailedSends(events: seq<Event>): (rest: seq<Event>)
    ensures Send(false) !in rest
  {
    if events == [] then []
    else (if events[0] == Send(false) then [] else [events[0]]) + WithoutFailedSends(events[1..])
  }

  /** However many sends fail, and whenever: the run ends as if they had not been tried. */
  lemma {:induction false} FailedSendsLeaveNoTrace(s: State, events: seq<Event>)
    requires EnabledAll(s, events)
    ensures EnabledAll(s, WithoutFailedSends(events)) && Run(s, events) == Run(s, WithoutFailedSends(events))
    decreases |events|
  {
    if events != [] {
      FailedSendsLeaveNoTrace(Step(s, events[0]), events[1..]);
      var rest := WithoutFailedSends(events[1..]);
      if events[0] != Send(false) {
        assert ([events[0]] + rest)[1..] == rest;
      } else {
        assert [] + rest == rest;
      }
    }
  }

  /** What is queued stays at the end of the queues until a pull or a send that succeeds, and so ends that body. */
  lemma {:induction false} KeptUntilDelivered(s: State, events: seq<Event>) returns (more: Events)
    requires Pull !in events && Send(true) !in events
    ensures Run(s, events).queues == Joined(more, s.queues)
    decreases |events|
  {
    if events == [] {
      more := NO_EVENTS;
      NothingJoins(s.queues);
    } else {
      var now := OneStepKeeps(s, events[0]);
      var later := KeptUntilDelivered(Step(s, events[0]), events[1..]);
      more := Joined(later, now);
      JoinedAssociates(later, now, s.queues);
    }
  }

  lemma OneStepKeeps(s: State, e: Event) returns (more: Events)
    requires e != Pull && e != Send(true)
    ensures Step(s, e).queues == Joined(more, s.queues)
  {
    NothingJoins(s.queues);
    match e
    case Complete(record) => more := NO_EVENTS.(completed := [record]);
    case Notify(_, record) => more := NO_EVENTS.(completed := [record]);
    case Registered(name) => more := NO_EVENTS.(registrations := [name]);
    case Updated(name) => more := NO_EVENTS.(updates := [name]);
    case Deregistered(name) => more := NO_EVENTS.(deregistrations := [name]);
    case _ => more := NO_EVENTS;
  }

  // ---- The callback --------------------------------------------------------------------------------------

  ghost predicate KeepsCallback(events: seq<Event>) {
    forall e :: e in events ==> !e.SetCallback? && !e.ClearCallback?
  }

  lemma {:induction false} CallbackStays(s: State, events: seq<Event>)
    requires KeepsCallback(events)
    ensures Run(s, events).callback == s.callback
    decreases |events|
  {
    if events != [] {
      CallbackStays(Step(s, events[0]), events[1..]);
    }
  }

  /** A callback stays set until it is replaced or cleared. */
  lemma SetCallbackLasts(s: State, target: Json, events: seq<Event>)
    requires KeepsCallback(events)
    ensures Run(s, [SetCallback(target)] + events).callback == Some(target)
  {
    assert ([SetCallback(target)] + events)[1..] == events;
    CallbackStays(Step(s, SetCallback(target)), events);
  }

  /** After it is cleared, and until the next one is set, no send delivers anything. */
  lemma NoSendWithoutCallback(s: State, events: seq<Event>, ok: bool)
    requires KeepsCallback(events)
    ensures var t := Run(s, [ClearCallback] + events); t.callback == None && Step(t, Send(ok)) == t
  {
    assert ([ClearCallback] + events)[1..] == events;
    CallbackStays(Step(s, ClearCallback), events);
  }

  /** With a callback and something queued, a successful send hands over exactly the queues, and empties them. */
  lemma SendDelivers(s: State)
    requires s.callback.Some?
    requires s.queues.registrations != [] || s.queues.updates != [] || s.queues.deregistrations != []
             || s.queues.completed != []
    ensures var t := Step(s, Send(true));
            && t.delivered == s.delivered + [s.queues] && t.callback == s.callback
            && t.queues.registrations == [] && t.queues.updates == [] && t.queues.deregistrations == []
            && t.queues.completed == []
  {
  }

  // ---- Nothing is delivered twice ------------------------------------------------------------------------

  /** No response arrives twice, and none that has arrived is still pending. */
  ghost predicate ArrivedOnce(s: State) {
    && NoDuplicates(Responses(s.arrived.completed))
    && forall r :: r in Responses(s.arrived.completed) ==> r in s.known && r !in s.pending
  }

  lemma ResponsesAppended(records: seq<Record>, record: Record)
    ensures Responses(records + [record]) == Responses(records) + [record.response]
  {
  }

  lemma RemovedOnce(list: seq<Response>, r: Response)
    requires multiset(list)[r] == 1
    ensures r !in RemoveFirst(list, r)
  {
    assert r in multiset(list);
    RemoveFirstMultiset(list, r);
    assert (multiset(list) - multiset{r})[r] == 0;
    assert r !in multiset(RemoveFirst(list, r));
  }

  lemma CompletionArrivesOnce(s: State, record: Record)
    requires Owned(s) && ArrivedOnce(s) && Enabled(s, Complete(record))
    ensures ArrivedOnce(Step(s, Complete(record)))
  {
    var r, before := record.response, Responses(s.arrived.completed);
    ResponsesAppended(s.arrived.completed, record);
    HeldIsKnown(s, r);
    InOneList(s, r);
    RemovedOnce(s.pending, r);
    forall q | q in before
      ensures q !in RemoveFirst(s.pending, r)
    {
      if q in RemoveFirst(s.pending, r) { RemoveFirstIsPart(s.pending, r, q); }
    }
  }

  lemma StepKeepsArrivedOnce(s: State, e: Event)
    requires Owned(s) && ArrivedOnce(s) && Enabled(s, e)
    ensures ArrivedOnce(Step(s, e))
  {
    match e
    case Complete(record) => CompletionArrivesOnce(s, record);
    case Notify(_, record) =>
      ResponsesAppended(s.arrived.completed, record);
      if record.response in s.pending { HeldIsKnown(s, record.response); }
    case _ =>
  }

  /** Over any run; with RunKeepsInOrder: the delivered and the queued responses together have no duplicates. */
  lemma {:induction false} RunKeepsArrivedOnce(s: State, events: seq<Event>)
    requires Owned(s) && ArrivedOnce(s) && InOrder(s) && EnabledAll(s, events)
    ensures var t := Run(s, events);
            ArrivedOnce(t) && NoDuplicates(Responses(Chronological(t.delivered, t.queues).completed))
    decreases |events|
  {
    if events != [] {
      StepKeepsOwned(s, events[0]);
      StepKeepsArrivedOnce(s, events[0]);
      StepKeepsInOrder(s, events[0]);
      RunKeepsArrivedOnce(Step(s, events[0]), events[1..]);
    }
  }

  // ---- Conservation of transactions ----------------------------------------------------------------------

  ghost predicate IsQueued(s: State, r: Response) {
    exists record :: record in s.queues.completed && record.response == r
  }

  ghost predicate WasDelivered(s: State, r: Response) {
    exists body, record :: body in s.delivered && record in body.completed && record.response == r
  }

  /** Where an accepted transaction stands: 0 pending, 1 completed and queued, 2 delivered. */
  ghost function Phase(s: State, r: Response): nat {
    if r in s.pending then 0 else if IsQueued(s, r) then 1 else 2
  }

  ghost predicate Conserved(s: State) {
    && (forall r :: r in s.accepted ==> r in s.pending || IsQueued(s, r) || WasDelivered(s, r))
    && (forall r :: r in s.accepted ==> r in s.known)
    && (forall r :: r in s.pending ==> r in s.accepted)
    && (forall body, record :: body in s.delivered && record in body.completed ==> record.response in s.freed)
  }

  lemma QueuedIsHeld(s: State, r: Response)
    ensures IsQueued(s, r) <==> r in Responses(s.queues.completed)
  {
    if IsQueued(s, r) {
      var i :| 0 <= i < |s.queues.completed| && s.queues.completed[i].response == r;
      assert Responses(s.queues.completed)[i] == r;
    }
  }

  /** An accepted transaction is in exactly one of the three places. */
  lemma ExactlyOnePlace(s: State, r: Response)
    requires Owned(s) && Conserved(s) && r in s.accepted
    ensures r in s.pending ==> !IsQueued(s, r) && !WasDelivered(s, r)
    ensures IsQueued(s, r) ==> r !in s.pending && !WasDelivered(s, r)
    ensures WasDelivered(s, r) ==> r !in s.pending && !IsQueued(s, r)
    ensures r in s.pending || IsQueued(s, r) || WasDelivered(s, r)
    ensures multiset(s.pending)[r] <= 1 && multiset(Responses(s.queues.completed))[r] <= 1
  {
    MultiplicityOne(s, r);
    QueuedIsHeld(s, r);
    assert r in s.pending <==> multiset(s.pending)[r] > 0;
    assert r in Responses(s.queues.completed) <==> multiset(Responses(s.queues.completed))[r] > 0;
    assert r in s.freed <==> multiset(s.freed)[r] > 0;
  }

  lemma DeliveredStays(s: State, e: Event, r: Response)
    requires WasDelivered(s, r)
    ensures WasDelivered(Step(s, e), r)
  {
    var body, record :| body in s.delivered && record in body.completed && record.response == r;
    assert body in Step(s, e).delivered;
  }

  lemma QueuedMovesOn(s: State, e: Event, r: Response)
    requires IsQueued(s, r)
    ensures IsQueued(Step(s, e), r) || WasDelivered(Step(s, e), r)
  {
    var record :| record in s.queues.completed && record.response == r;
    if Step(s, e).delivered == s.delivered {
      assert record in Step(s, e).queues.completed;
    } else {
      assert s.queues in Step(s, e).delivered;
    }
  }

  lemma PendingMovesOn(s: State, e: Event, r: Response)
    requires r in s.pending
    ensures r in Step(s, e).pending || IsQueued(Step(s, e), r)
  {
    if e.Complete? {
      if e.record.response == r {
        assert e.record in Step(s, e).queues.completed;
      } else {
        RemoveFirstKeepsOthers(s.pending, e.record.response, r);
      }
    }
  }

  lemma {:induction false} RemoveFirstIsPart<T>(s: seq<T>, x: T, y: T)
    requires y in RemoveFirst(s, x)
    ensures y in s
  {
    if s != [] && s[0] != x && y != s[0] {
      RemoveFirstIsPart(s[1..], x, y);
    }
  }

  lemma DeliveredIsFreed(s: State, e: Event, body: Events, record: Record)
    requires Conserved(s) && body in Step(s, e).delivered && record in body.completed
    ensures record.response in Step(s, e).freed
  {
    if body !in s.delivered {
      assert IsQueued(s, record.response);
      QueuedIsHeld(s, record.response);
    }
  }

  lemma StepKeepsConserved(s: State, e: Event)
    requires Conserved(s)
    ensures Conserved(Step(s, e))
  {
    var t := Step(s, e);
    forall r | r in t.accepted
      ensures r in t.pending || IsQueued(t, r) || WasDelivered(t, r)
    {
      if r in s.accepted {
        if r in s.pending { PendingMovesOn(s, e, r); }
        else if IsQueued(s, r) { QueuedMovesOn(s, e, r); }
        else { DeliveredStays(s, e, r); }
      }
    }
    forall r | r in t.pending
      ensures r in t.accepted
    {
      if e.Complete? { RemoveFirstIsPart(s.pending, e.record.response, r); }
    }
    forall body, record | body in t.delivered && record in body.completed
      ensures record.response in t.freed
    {
      DeliveredIsFreed(s, e, body, record);
    }
  }

  lemma {:induction false} RunKeepsConserved(s: State, events: seq<Event>)
    requires Conserved(s)
    ensures Conserved(Run(s, events))
    decreases |events|
  {
    if events != [] {
      StepKeepsConserved(s, events[0]);
      RunKeepsConserved(Step(s, events[0]), events[1..]);
    }
  }

  /** A transaction only moves forward. */
  lemma StepAdvances(s: State, e: Event, r: Response)
    requires Owned(s) && Conserved(s) && Enabled(s, e) && r in s.accepted
    ensures r in Step(s, e).accepted && Phase(s, r) <= Phase(Step(s, e), r)
  {
    StepKeepsOwned(s, e);
    StepKeepsConserved(s, e);
    ExactlyOnePlace(s, r);
    ExactlyOnePlace(Step(s, e), r);
    if r in s.pending {
    } else if IsQueued(s, r) {
      QueuedMovesOn(s, e, r);
    } else {
      DeliveredStays(s, e, r);
    }
  }

  /** Over any run, a transaction answered with 202 stays accounted for and never moves back. */
  lemma {:induction false} RunAdvances(s: State, events: seq<Event>, r: Response)
    requires Owned(s) && Conserved(s) && EnabledAll(s, events) && r in s.accepted
    ensures r in Run(s, events).accepted && Phase(s, r) <= Phase(Run(s, events), r)
    decreases |events|
  {
    if events != [] {
      StepKeepsOwned(s, events[0]);
      StepKeepsConserved(s, events[0]);
      StepAdvances(s, events[0], r);
      RunAdvances(Step(s, events[0]), events[1..], r);
    }
  }

  // ---- Subscriptions -------------------------------------------------------------------------------------

  /** One observation per client and uri; without dropped clients, every listed response has its observation. */
  ghost predicate Subscribed(s: State) {
    && (forall o, p :: o in s.observations && p in s.observations && o.client == p.client && o.uri == p.uri ==> o == p)
    && (!s.clientDropped ==> forall r :: r in s.observed ==> exists o :: o in s.observations && o.response == r)
  }

  lemma StepKeepsListed(s: State, e: Event, r: Response)
    requires Owned(s) && Subscribed(s) && Enabled(s, e)
    requires !Step(s, e).clientDropped && r in Step(s, e).observed
    ensures exists o :: o in Step(s, e).observations && o.response == r
  {
    if e.Unobserve? {
      RemoveFirstIsPart(s.observed, e.observation.response, r);
      HeldIsKnown(s, e.observation.response);
      InOneList(s, e.observation.response);
      RemovedOnce(s.observed, e.observation.response);
      var o :| o in s.observations && o.response == r;
      assert o != e.observation;
    } else if r in s.observed {
      var o :| o in s.observations && o.response == r;
      assert o in Step(s, e).observations;
    } else {
      assert Observation(e.client, e.uri, r) in Step(s, e).observations;
    }
  }

  lemma StepKeepsSubscribed(s: State, e: Event)
    requires Owned(s) && Subscribed(s) && Enabled(s, e)
    ensures Subscribed(Step(s, e))
  {
    if !Step(s, e).clientDropped {
      forall r | r in Step(s, e).observed
        ensures exists o :: o in Step(s, e).observations && o.response == r
      {
        StepKeepsListed(s, e, r);
      }
    }
  }

  lemma {:induction false} RunKeepsSubscribed(s: State, events: seq<Event>)
    requires Owned(s) && Subscribed(s) && EnabledAll(s, events)
    ensures Subscribed(Run(s, events))
    decreases |events|
  {
    if events != [] {
      StepKeepsOwned(s, events[0]);
      StepKeepsSubscribed(s, events[0]);
      RunKeepsSubscribed(Step(s, events[0]), events[1..]);
    }
  }

  /** The identifier in the answer to a PUT; none when the library refuses. */
  ghost function Answer(s: State, client: nat, uri: Uri, r: Response, inserted: bool): Option<string> {
    var found := Find(s.observations, client, uri);
    if found.Some? then Some(found.value.response.id) else if inserted then Some(r.id) else None
  }

  /** No cancellation of this subscription completes and the client is not dropped. */
  ghost predicate Undisturbed(events: seq<Event>, client: nat, uri: Uri) {
    forall e :: e in events ==>
      !(e.Unobserve? && Matches(e.observation, client, uri)) && !(e.DropClient? && e.client == client)
  }

  lemma {:induction false} SubscriptionSurvives(s: State, events: seq<Event>, o: Observation)
    requires o in s.observations && Undisturbed(events, o.client, o.uri)
    ensures o in Run(s, events).observations
    decreases |events|
  {
    if events != [] {
      SubscriptionSurvives(Step(s, events[0]), events[1..], o);
    }
  }

  /** Any number of PUTs, with anything in between but a completed cancellation, get the same identifier. */
  lemma RepeatedPutsGetTheSameId(s: State, client: nat, uri: Uri, r: Response, inserted: bool, events: seq<Event>,
                                 r': Response, inserted': bool)
    requires Owned(s) && Subscribed(s)
    requires EnabledAll(s, [Subscribe(client, uri, r, inserted)] + events)
    requires Answer(s, client, uri, r, inserted).Some? && Undisturbed(events, client, uri)
    ensures Answer(Run(s, [Subscribe(client, uri, r, inserted)] + events), client, uri, r', inserted')
         == Answer(s, client, uri, r, inserted)
  {
    var put := Subscribe(client, uri, r, inserted);
    var after := Step(s, put);
    assert ([put] + events)[1..] == events;
    var found := Find(s.observations, client, uri);
    var o := if found.Some? then found.value else Observation(client, uri, r);
    SubscriptionSurvives(after, events, o);
    RunKeepsSubscribed(s, [put] + events);
  }

  // ---- Every delivered identifier was handed out ---------------------------------------------------------

  /**
   * The record is that of an accepted transaction itself, and so has its identifier; or it is that of a clone
   * with the identifier of a subscription.
   */
  ghost predicate HandedOut(s: State, record: Record) {
    record.response in s.accepted || exists r :: r in s.subscribed && r.id == record.response.id
  }

  ghost predicate Traceable(s: State) {
    && (forall record :: record in s.queues.completed ==> HandedOut(s, record))
    && (forall body, record :: body in s.delivered && record in body.completed ==> HandedOut(s, record))
    && (forall o :: o in s.observations ==> o.response in s.subscribed)
    && (forall r :: r in s.transactions ==> r in s.accepted)
  }

  lemma HandedOutStays(s: State, e: Event, record: Record)
    requires HandedOut(s, record)
    ensures HandedOut(Step(s, e), record)
  {
    if record.response in s.accepted {
      assert record.response in Step(s, e).accepted;
    } else {
      var r :| r in s.subscribed && r.id == record.response.id;
      assert r in Step(s, e).subscribed;
    }
  }

  lemma NewRecordHandedOut(s: State, e: Event)
    requires Traceable(s) && Enabled(s, e) && (e.Complete? || e.Notify?)
    ensures HandedOut(Step(s, e), e.record)
  {
    if e.Complete? {
      assert e.record.response in Step(s, e).accepted;
    } else {
      assert e.observation.response in Step(s, e).subscribed;
    }
  }

  lemma StepKeepsTraceable(s: State, e: Event)
    requires Traceable(s) && Enabled(s, e)
    ensures Traceable(Step(s, e))
  {
    var t := Step(s, e);
    forall record | record in t.queues.completed
      ensures HandedOut(t, record)
    {
      if record in s.queues.completed { HandedOutStays(s, e, record); } else { NewRecordHandedOut(s, e); }
    }
    forall body, record | body in t.delivered && record in body.completed
      ensures HandedOut(t, record)
    {
      HandedOutStays(s, e, record);
    }
  }

  /** Over any run: a record only ever carries an identifier that an earlier 202 answer handed out. */
  lemma {:induction false} RunKeepsTraceable(s: State, events: seq<Event>)
    requires Traceable(s) && EnabledAll(s, events)
    ensures Traceable(Run(s, events))
    decreases |events|
  {
    if events != [] {
      StepKeepsTraceable(s, events[0]);
      RunKeepsTraceable(Step(s, events[0]), events[1..]);
    }
  }

  /** Every notification of a run carries the identifier of a subscription that is listed when it is queued. */
  lemma EveryNotificationIsLive(events: seq<Event>, k: nat)
    requires EnabledAll(INITIAL, events) && k < |events| && events[k].Notify?
    ensures var s, record := Run(INITIAL, events[..k]), events[k].record;
            && (exists r :: r in s.observed && r in s.subscribed && r.id == record.response.id)
            && record in Run(INITIAL, events[..k + 1]).queues.completed
  {
    RunBefore(INITIAL, events, k);
    RunKeepsOwned(INITIAL, events[..k]);
    RunKeepsTraceable(INITIAL, events[..k]);
    var s, r := Run(INITIAL, events[..k]), events[k].observation.response;
    assert r in s.observed && r in s.subscribed;
  }

  /** All of it, from the start of the program. */
  lemma EveryRun(events: seq<Event>)
    requires EnabledAll(INITIAL, events)
    ensures var s := Run(INITIAL, events);
            Owned(s) && InOrder(s) && ArrivedOnce(s) && Conserved(s) && Subscribed(s) && Traceable(s)
  {
    RunKeepsOwned(INITIAL, events);
    RunKeepsInOrder(INITIAL, events);
    RunKeepsArrivedOnce(INITIAL, events);
    RunKeepsConserved(INITIAL, events);
    RunKeepsSubscribed(INITIAL, events);
    RunKeepsTraceable(INITIAL, events);
  }
}
