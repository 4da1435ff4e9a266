/**
 * The event channel and the asynchronous transactions as a transition system. A step is a whole REST handler
 * or library callback: each runs under the one lock. RestContext proves the handlers against these steps.
 *
 * The LwM2M library is the environment. What is assumed of it is the predicate Enabled: a transaction
 * callback fires at most once and after the request call returned; a successful observe inserts one
 * observation with the given context; an unobserve callback fires at most once for an observation, which is
 * then gone. The library may drop clients with their observations, and transactions, without any callback.
 */
module EventChannel {
  import opened Wrappers
  import opened LinkedList
  import opened AsyncResponse
  import opened Json

  datatype Uri = Uri(flag: int, objectId: int, instanceId: int, resourceId: int)

  /** A context allocated for an observe call is represented by the response object it owns. */
  datatype Observation = Observation(client: nat, uri: Uri, response: Response)

  /** A completed response with the contents it had when it was queued. */
  datatype Record = Record(response: Response, timestamp: int, status: int, payload: Option<string>)

  /** The four kinds of events: the queues of the channel, and the body of a pull or a callback. */
  datatype Events = Events(registrations: seq<string>, updates: seq<string>, deregistrations: seq<string>,
                           completed: seq<Record>)

  const NO_EVENTS := Events([], [], [], [])

  datatype State = State(
    pending: seq<Response>,            // pendingResponseList
    observed: seq<Response>,           // observeList
    queues: Events,                    // registrationList, updateList, deregistrationList, asyncResponseList
    callback: Option<Json>,
    transactions: set<Response>,       // the library's transactions that carry our callback
    observations: set<Observation>,    // the library's observations, over all clients
    // what has happened so far
    known: set<Response>,              // every response object ever allocated
    freed: seq<Response>,              // deleted, in order
    accepted: seq<Response>,           // transactions answered with 202
    subscribed: seq<Response>,         // subscriptions answered with 202 and a new identifier
    arrived: Events,                   // in order of arrival
    delivered: seq<Events>,            // bodies handed over, in order
    clientDropped: bool)

  const INITIAL := State([], [], NO_EVENTS, None, {}, {}, {}, [], [], [], NO_EVENTS, [], false)

  datatype Event =
    | Accept(response: Response, accepted: bool)
    | Complete(record: Record)
    | Subscribe(client: nat, uri: Uri, response: Response, inserted: bool)
    | Notify(observation: Observation, record: Record)
    | Unobserve(observation: Observation)
    | Registered(name: string)
    | Updated(name: string)
    | Deregistered(name: string)
    | Pull
    | Send(ok: bool)
    | SetCallback(target: Json)
    | ClearCallback
    | DropTransaction(response: Response)
    | DropClient(client: nat)

  ghost predicate Matches(o: Observation, client: nat, uri: Uri) {
    o.client == client && o.uri == uri
  }

  /** The observation of a client under a uri, which is compared in all four parts. */
  ghost function Find(observations: set<Observation>, client: nat, uri: Uri): (found: Option<Observation>)
    ensures found.Some? ==> found.value in observations && Matches(found.value, client, uri)
    ensures found.None? ==> forall o :: o in observations ==> !Matches(o, client, uri)
  {
    if exists o :: o in observations && Matches(o, client, uri) then
      var o :| o in observations && Matches(o, client, uri);
      Some(o)
    else None
  }

  function Responses(records: seq<Record>): (responses: seq<Response>)
    ensures |responses| == |records|
    ensures forall i :: 0 <= i < |records| ==> responses[i] == records[i].response
  {
    seq(|records|, i requires 0 <= i < |records| => records[i].response)
  }

  ghost predicate Enabled(s: State, e: Event) {
    match e
    case Accept(r, _) => r !in s.known
    case Complete(record) => record.response in s.transactions
    case Subscribe(_, _, r, _) => r !in s.known
    case Notify(o, record) =>
      o in s.observations && record.response !in s.known && record.response.id == o.response.id
    case Unobserve(o) => o in s.observations
    case DropTransaction(r) => r in s.transactions
    case _ => true
  }

  // ---- The steps -----------------------------------------------------------------------------------------

  function Accepted(s: State, r: Response): State {
    s.(pending := [r] + s.pending, transactions := s.transactions + {r}, known := s.known + {r},
       accepted := s.accepted + [r])
  }

  /** A response allocated for a call that the library refuses is freed at once. */
  function Refused(s: State, r: Response): State {
    s.(known := s.known + {r}, freed := s.freed + [r])
  }

  function Queued(s: State, record: Record): State {
    s.(queues := s.queues.(completed := [record] + s.queues.completed),
       arrived := s.arrived.(completed := s.arrived.completed + [record]))
  }

  function Completed(s: State, record: Record): State {
    Queued(s, record).(pending := RemoveFirst(s.pending, record.response),
                       transactions := s.transactions - {record.response})
  }

  function NewlyObserved(s: State, o: Observation): State {
    s.(observed := [o.response] + s.observed, observations := s.observations + {o},
       known := s.known + {o.response}, subscribed := s.subscribed + [o.response])
  }

  function Notified(s: State, record: Record): State {
    Queued(s, record).(known := s.known + {record.response})
  }

  function Unobserved(s: State, o: Observation): State {
    s.(observed := RemoveFirst(s.observed, o.response), freed := s.freed + [o.response],
       observations := s.observations - {o})
  }

  function RegistrationQueued(s: State, name: string): State {
    s.(queues := s.queues.(registrations := [name] + s.queues.registrations),
       arrived := s.arrived.(registrations := s.arrived.registrations + [name]))
  }

  function UpdateQueued(s: State, name: string): State {
    s.(queues := s.queues.(updates := [name] + s.queues.updates),
       arrived := s.arrived.(updates := s.arrived.updates + [name]))
  }

  function DeregistrationQueued(s: State, name: string): State {
    s.(queues := s.queues.(deregistrations := [name] + s.queues.deregistrations),
       arrived := s.arrived.(deregistrations := s.arrived.deregistrations + [name]))
  }

  /** The contents of all four queues become one body, and the completed responses are deleted. */
  function Delivered(s: State): State {
    s.(queues := NO_EVENTS, delivered := s.delivered + [s.queues], freed := s.freed + Responses(s.queues.completed))
  }

  ghost function Step(s: State, e: Event): State {
    match e
    case Accept(r, accepted) => if accepted then Accepted(s, r) else Refused(s, r)
    case Complete(record) => Completed(s, record)
    case Subscribe(client, uri, r, inserted) =>
      if Find(s.observations, client, uri).Some? then s
      else if inserted then NewlyObserved(s, Observation(client, uri, r))
      else Refused(s, r)
    case Notify(_, record) => Notified(s, record)
    case Unobserve(o) => Unobserved(s, o)
    case Registered(name) => RegistrationQueued(s, name)
    case Updated(name) => UpdateQueued(s, name)
    case Deregistered(name) => DeregistrationQueued(s, name)
    case Pull => Delivered(s)
    case Send(ok) => if s.queues != NO_EVENTS && s.callback.Some? && ok then Delivered(s) else s
    case SetCallback(target) => s.(callback := Some(target))
    case ClearCallback => s.(callback := None)
    case DropTransaction(r) => s.(transactions := s.transactions - {r})
    case DropClient(client) =>
      s.(observations := (set o | o in s.observations && o.client != client), clientDropped := true)
  }

  ghost predicate EnabledAll(s: State, events: seq<Event>)
    decreases |events|
  {
    events == [] || (Enabled(s, events[0]) && EnabledAll(Step(s, events[0]), events[1..]))
  }

  ghost function Run(s: State, events: seq<Event>): State
    decreases |events|
  {
    if events == [] then s else Run(Step(s, events[0]), events[1..])
  }

  /** Runs grow by one enabled step at a time. */
  lemma {:induction false} RunAppended(s: State, events: seq<Event>, e: Event)
    requires EnabledAll(s, events) && Enabled(Run(s, events), e)
    ensures EnabledAll(s, events + [e]) && Run(s, events + [e]) == Step(Run(s, events), e)
    decreases |events|
  {
    if events == [] {
      assert ([] + [e])[1..] == [] && ([] + [e])[0] == e;
    } else {
      RunAppended(Step(s, events[0]), events[1..], e);
      assert (events + [e])[1..] == events[1..] + [e];
    }
  }

  /** The state before the k-th event of a run, and what that event does. */
  lemma {:induction false} RunBefore(s: State, events: seq<Event>, k: nat)
    requires EnabledAll(s, events) && k < |events|
    ensures EnabledAll(s, events[..k]) && Enabled(Run(s, events[..k]), events[k])
    ensures EnabledAll(s, events[..k + 1]) && Run(s, events[..k + 1]) == Step(Run(s, events[..k]), events[k])
    decreases |events|
  {
    if k > 0 {
      RunBefore(Step(s, events[0]), events[1..], k - 1);
      assert events[..k][1..] == events[1..][..k - 1];
    }
    assert events[..k + 1] == events[..k] + [events[k]];
    RunAppended(s, events[..k], events[k]);
  }

  // ---- Ownership -----------------------------------------------------------------------------------------

  /** How often each response object is held: by a list, or among the deleted ones. */
  ghost function Holders(s: State): multiset<Response> {
    multiset(s.pending) + multiset(s.observed) + multiset(Responses(s.queues.completed)) + multiset(s.freed)
  }

  /**
   * Every response object is held exactly once: in one of the three lists, or deleted. So the lists are
   * disjoint and without duplicates, nothing is deleted twice, and nothing in a list has been deleted.
   */
  ghost predicate Owned(s: State) {
    && Holders(s) == multiset(s.known)
    && (forall r :: r in s.transactions ==> r in s.pending)
    && (forall o :: o in s.observations ==> o.response in s.observed)
    && (forall o, p :: o in s.observations && p in s.observations && o.response == p.response ==> o == p)
  }

  lemma ResponsesOfQueued(record: Record, records: seq<Record>)
    ensures multiset(Responses([record] + records)) == multiset{record.response} + multiset(Responses(records))
  {
    assert Responses([record] + records) == [record.response] + Responses(records);
  }

  lemma NewHolder(known: set<Response>, r: Response)
    requires r !in known
    ensures multiset(known + {r}) == multiset(known) + multiset{r}
  {
  }

  lemma AcceptKeepsHolders(s: State, e: Event)
    requires Owned(s) && Enabled(s, e) && (e.Accept? || e.Subscribe?)
    ensures Holders(Step(s, e)) == multiset(Step(s, e).known)
  {
    NewHolder(s.known, e.response);
    assert multiset([e.response] + s.pending) == multiset{e.response} + multiset(s.pending);
    assert multiset([e.response] + s.observed) == multiset{e.response} + multiset(s.observed);
    assert multiset(s.freed + [e.response]) == multiset(s.freed) + multiset{e.response};
  }

  lemma CompleteKeepsHolders(s: State, record: Record)
    requires Owned(s) && Enabled(s, Complete(record))
    ensures Holders(Step(s, Complete(record))) == multiset(s.known)
  {
    ResponsesOfQueued(record, s.queues.completed);
    RemoveFirstMultiset(s.pending, record.response);
    assert record.response in multiset(s.pending);
  }

  lemma NotifyKeepsHolders(s: State, o: Observation, record: Record)
    requires Owned(s) && Enabled(s, Notify(o, record))
    ensures Holders(Step(s, Notify(o, record))) == multiset(Step(s, Notify(o, record)).known)
  {
    ResponsesOfQueued(record, s.queues.completed);
    NewHolder(s.known, record.response);
  }

  lemma UnobserveKeepsHolders(s: State, o: Observation)
    requires Owned(s) && Enabled(s, Unobserve(o))
    ensures Holders(Step(s, Unobserve(o))) == multiset(s.known)
  {
    RemoveFirstMultiset(s.observed, o.response);
    assert o.response in multiset(s.observed);
    assert multiset(s.freed + [o.response]) == multiset(s.freed) + multiset{o.response};
  }

  lemma DeliveredKeepsHolders(s: State)
    requires Owned(s)
    ensures Holders(Delivered(s)) == multiset(s.known)
  {
    var deleted := Responses(s.queues.completed);
    assert multiset(s.freed + deleted) == multiset(s.freed) + multiset(deleted);
    assert Responses([]) == [];
  }

  lemma StepKeepsHolders(s: State, e: Event)
    requires Owned(s) && Enabled(s, e)
    ensures Holders(Step(s, e)) == multiset(Step(s, e).known)
  {
    match e
    case Accept(_, _) => AcceptKeepsHolders(s, e);
    case Subscribe(_, _, _, _) => AcceptKeepsHolders(s, e);
    case Complete(record) => CompleteKeepsHolders(s, record);
    case Notify(o, record) => NotifyKeepsHolders(s, o, record);
    case Unobserve(o) => UnobserveKeepsHolders(s, o);
    case Pull => DeliveredKeepsHolders(s);
    case Send(_) => DeliveredKeepsHolders(s);
    case _ =>
  }

  lemma {:induction false} RemoveFirstKeepsOthers<T>(s: seq<T>, x: T, y: T)
    requires y in s && y != x
    ensures y in RemoveFirst(s, x)
  {
    if s[0] == x {
      assert y in s[1..];
    } else if s[0] != y {
      RemoveFirstKeepsOthers(s[1..], x, y);
    }
  }

  lemma HeldIsKnown(s: State, r: Response)
    requires Owned(s) && (r in s.pending || r in s.observed || r in s.freed || r in Responses(s.queues.completed))
    ensures r in s.known
  {
    assert r in Holders(s);
    assert r in multiset(s.known);
  }

  lemma StepKeepsTransactions(s: State, e: Event)
    requires Owned(s) && Enabled(s, e)
    ensures forall r :: r in Step(s, e).transactions ==> r in Step(s, e).pending
  {
    if e.Complete? {
      forall r | r in s.transactions && r != e.record.response
        ensures r in Step(s, e).pending
      {
        RemoveFirstKeepsOthers(s.pending, e.record.response, r);
      }
    }
  }

  lemma StepKeepsObservations(s: State, e: Event)
    requires Owned(s) && Enabled(s, e)
    ensures var t := Step(s, e);
            && (forall o :: o in t.observations ==> o.response in t.observed)
            && (forall o, p :: o in t.observations && p in t.observations && o.response == p.response ==> o == p)
  {
    if e.Subscribe? {
      forall o | o in s.observations
        ensures o.response != e.response
      {
        HeldIsKnown(s, o.response);
      }
    } else if e.Unobserve? {
      forall p | p in s.observations && p != e.observation
        ensures p.response in Step(s, e).observed
      {
        RemoveFirstKeepsOthers(s.observed, e.observation.response, p.response);
      }
    }
  }

  lemma StepKeepsOwned(s: State, e: Event)
    requires Owned(s) && Enabled(s, e)
    ensures Owned(Step(s, e))
  {
    StepKeepsHolders(s, e);
    StepKeepsTransactions(s, e);
    StepKeepsObservations(s, e);
  }

  lemma {:induction false} RunKeepsOwned(s: State, events: seq<Event>)
    requires Owned(s) && EnabledAll(s, events)
    ensures Owned(Run(s, events))
    decreases |events|
  {
    if events != [] {
      StepKeepsOwned(s, events[0]);
      RunKeepsOwned(Step(s, events[0]), events[1..]);
    }
  }

  lemma MultiplicityOne(s: State, r: Response)
    requires Owned(s)
    ensures multiset(s.pending)[r] + multiset(s.observed)[r] + multiset(Responses(s.queues.completed))[r]
            + multiset(s.freed)[r] == if r in s.known then 1 else 0
  {
    assert Holders(s)[r] == multiset(s.known)[r];
  }

  lemma InOneList(s: State, r: Response)
    requires Owned(s) && r in s.known
    ensures r in s.pending ==> multiset(s.pending)[r] == 1 && r !in s.observed
    ensures r in s.observed ==> multiset(s.observed)[r] == 1 && r !in s.pending
    ensures r in s.pending || r in s.observed ==> r !in Responses(s.queues.completed) && r !in s.freed
  {
    MultiplicityOne(s, r);
    assert r in s.pending <==> multiset(s.pending)[r] > 0;
    assert r in s.observed <==> multiset(s.observed)[r] > 0;
    assert r in Responses(s.queues.completed) <==> multiset(Responses(s.queues.completed))[r] > 0;
    assert r in s.freed <==> multiset(s.freed)[r] > 0;
  }

  /**
   * Whenever a callback of a run unlinks a response, its list holds it once, and no other list holds it and it
   * has not been deleted: the assertion at the end of the list's removal is never reached.
   */
  lemma EveryUnlinkFindsItsResponse(events: seq<Event>, k: nat)
    requires EnabledAll(INITIAL, events) && k < |events|
    ensures var s, e := Run(INITIAL, events[..k]), events[k];
            && (e.Complete? ==> multiset(s.pending)[e.record.response] == 1 && e.record.response !in s.freed
                                && e.record.response !in s.observed
                                && e.record.response !in Responses(s.queues.completed))
            && (e.Unobserve? ==> multiset(s.observed)[e.observation.response] == 1 && e.observation.response !in s.freed
                                 && e.observation.response !in s.pending
                                 && e.observation.response !in Responses(s.queues.completed))
  {
    RunBefore(INITIAL, events, k);
    RunKeepsOwned(INITIAL, events[..k]);
    var s, e := Run(INITIAL, events[..k]), events[k];
    if e.Complete? {
      HeldIsKnown(s, e.record.response);
      InOneList(s, e.record.response);
    } else if e.Unobserve? {
      HeldIsKnown(s, e.observation.response);
      InOneList(s, e.observation.response);
    }
  }
}
