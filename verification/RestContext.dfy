/** The lists of the REST context, and the handlers and callbacks that change them. */
module RestContext {
  import opened Wrappers
  import opened Base64
  import opened Json
  import opened LinkedList
  import opened AsyncResponse
  import opened EventChannel
  import opened EventChannelRuns

  /** A registration, update or deregistration event; its name is set once, before it is queued. */
  class Notification {
    const name: string

    constructor (name: string)
      ensures this.name == name
    {
      this.name := name;
    }
  }

  ghost function Names(notifications: seq<Notification>): (names: seq<string>)
    ensures |names| == |notifications|
    ensures forall i :: 0 <= i < |names| ==> names[i] == notifications[i].name
  {
    seq(|notifications|, i requires 0 <= i < |notifications| => notifications[i].name)
  }

  lemma NamesAdded(n: Notification, notifications: seq<Notification>)
    ensures Names([n] + notifications) == [n.name] + Names(notifications)
  {
  }

  /** The records say what the queued responses hold. */
  ghost predicate RecordsOf(responses: seq<Response>, records: seq<Record>)
    reads responses
  {
    && |responses| == |records|
    && forall i :: 0 <= i < |records| ==>
         records[i] == Record(responses[i], responses[i].timestamp, responses[i].status, responses[i].payload)
  }

  /** Records keep describing responses that were not touched. */
  twostate lemma RecordsKept(queue: (seq<Response>, seq<Record>))
    requires forall r :: r in queue.0 ==> unchanged(r)
    ensures old(RecordsOf(queue.0, queue.1)) ==> RecordsOf(queue.0, queue.1)
  {
    forall i | 0 <= i < |queue.0|
      ensures queue.0[i].timestamp == old(queue.0[i].timestamp) && queue.0[i].status == old(queue.0[i].status)
      ensures queue.0[i].payload == old(queue.0[i].payload)
    {
      assert queue.0[i] in queue.0;
    }
  }

  class Context {
    const registrationList: LinkedList<Notification>
    const updateList: LinkedList<Notification>
    const deregistrationList: LinkedList<Notification>
    const asyncResponseList: LinkedList<Response>
    const pendingResponseList: LinkedList<Response>
    const observeList: LinkedList<Response>
    var callback: Option<Json>

    ghost predicate ListsValid()
      reads registrationList, updateList, deregistrationList, asyncResponseList, pendingResponseList, observeList
      reads registrationList.Repr, updateList.Repr, deregistrationList.Repr
      reads asyncResponseList.Repr, pendingResponseList.Repr, observeList.Repr
    {
      && registrationList.Valid() && updateList.Valid() && deregistrationList.Valid()
      && asyncResponseList.Valid() && pendingResponseList.Valid() && observeList.Valid()
      && (registrationList.Repr !! updateList.Repr !! deregistrationList.Repr
          !! asyncResponseList.Repr !! pendingResponseList.Repr !! observeList.Repr !! {this as object})
    }

    /** No response is a part of a list. */
    ghost predicate Separate(known: set<Response>)
      reads registrationList, updateList, deregistrationList, asyncResponseList, pendingResponseList, observeList
    {
      forall r :: r in known ==>
        && r as object !in registrationList.Repr && r as object !in updateList.Repr
        && r as object !in deregistrationList.Repr && r as object !in asyncResponseList.Repr
        && r as object !in pendingResponseList.Repr && r as object !in observeList.Repr
    }

    /** The lists hold what the state says. */
    ghost predicate Ties(s: State)
      reads this, registrationList, updateList, deregistrationList, asyncResponseList, pendingResponseList, observeList
      reads asyncResponseList.Contents
    {
      && s.pending == pendingResponseList.Contents && s.observed == observeList.Contents
      && s.queues.registrations == Names(registrationList.Contents)
      && s.queues.updates == Names(updateList.Contents)
      && s.queues.deregistrations == Names(deregistrationList.Contents)
      && RecordsOf(asyncResponseList.Contents, s.queues.completed)
      && s.callback == callback
      && (forall r :: r in s.pending ==> r in s.known) && (forall r :: r in s.observed ==> r in s.known)
      && (forall r :: r in asyncResponseList.Contents ==> r in s.known)
    }

    /** The abstraction: what the lists and the callback hold is the state. */
    ghost predicate Represents(s: State)
      reads this, registrationList, updateList, deregistrationList, asyncResponseList, pendingResponseList, observeList
      reads registrationList.Repr, updateList.Repr, deregistrationList.Repr
      reads asyncResponseList.Repr, pendingResponseList.Repr, observeList.Repr
      reads asyncResponseList.Contents
    {
      ListsValid() && Separate(s.known) && Ties(s)
    }

    constructor ()
      ensures Represents(INITIAL)
    {
      registrationList := new LinkedList<Notification>();
      updateList := new LinkedList<Notification>();
      deregistrationList := new LinkedList<Notification>();
      asyncResponseList := new LinkedList<Response>();
      pendingResponseList := new LinkedList<Response>();
      observeList := new LinkedList<Response>();
      callback := None;
      new;
      EmptyContext();
    }

    /** A context whose six lists are empty and distinct. */
    lemma EmptyContext()
      requires registrationList.Valid() && updateList.Valid() && deregistrationList.Valid()
      requires asyncResponseList.Valid() && pendingResponseList.Valid() && observeList.Valid()
      requires registrationList.Repr == {registrationList} && updateList.Repr == {updateList}
      requires deregistrationList.Repr == {deregistrationList} && asyncResponseList.Repr == {asyncResponseList}
      requires pendingResponseList.Repr == {pendingResponseList} && observeList.Repr == {observeList}
      requires registrationList != updateList && registrationList != deregistrationList
      requires updateList != deregistrationList && asyncResponseList != pendingResponseList
      requires asyncResponseList != observeList && pendingResponseList != observeList
      ensures ListsValid()
    {
    }

    // ---- The lists, one at a time: what changes and what does not ----------------------------------------

    method PushResponse(list: LinkedList<Response>, r: Response, ghost known: set<Response>)
      requires ListsValid() && Separate(known)
      requires list == asyncResponseList || list == pendingResponseList || list == observeList
      modifies list.Repr
      ensures ListsValid() && Separate(known) && list.Contents == [r] + old(list.Contents)
      ensures forall q :: q in known && old(allocated(q)) ==> unchanged(q)
      ensures unchanged(this) && unchanged(registrationList, updateList, deregistrationList)
      ensures list != asyncResponseList ==> unchanged(asyncResponseList)
      ensures list != pendingResponseList ==> unchanged(pendingResponseList)
      ensures list != observeList ==> unchanged(observeList)
    {
      list.Add(r);
      assert asyncResponseList.Valid() && pendingResponseList.Valid() && observeList.Valid();
    }

    method UnlinkResponse(list: LinkedList<Response>, r: Response, ghost known: set<Response>)
      requires ListsValid() && Separate(known) && r in list.Contents
      requires list == asyncResponseList || list == pendingResponseList || list == observeList
      modifies list.Repr
      ensures ListsValid() && Separate(known) && list.Contents == RemoveFirst(old(list.Contents), r)
      ensures forall q :: q in known && old(allocated(q)) ==> unchanged(q)
      ensures unchanged(this) && unchanged(registrationList, updateList, deregistrationList)
      ensures list != asyncResponseList ==> unchanged(asyncResponseList)
      ensures list != pendingResponseList ==> unchanged(pendingResponseList)
      ensures list != observeList ==> unchanged(observeList)
    {
      ghost var k := list.Remove(r);
      assert asyncResponseList.Valid() && pendingResponseList.Valid() && observeList.Valid();
    }

    method PushNotification(list: LinkedList<Notification>, n: Notification, ghost known: set<Response>)
      requires ListsValid() && Separate(known)
      requires list == registrationList || list == updateList || list == deregistrationList
      modifies list.Repr
      ensures ListsValid() && Separate(known) && list.Contents == [n] + old(list.Contents)
      ensures forall q :: q in known && old(allocated(q)) ==> unchanged(q)
      ensures unchanged(this) && unchanged(asyncResponseList, pendingResponseList, observeList)
      ensures list != registrationList ==> unchanged(registrationList)
      ensures list != updateList ==> unchanged(updateList)
      ensures list != deregistrationList ==> unchanged(deregistrationList)
    {
      list.Add(n);
    }

    method DrainNotifications(list: LinkedList<Notification>, ghost known: set<Response>)
      requires ListsValid() && Separate(known)
      requires list == registrationList || list == updateList || list == deregistrationList
      modifies list.Repr
      ensures ListsValid() && Separate(known) && list.Contents == []
      ensures forall q :: q in known && old(allocated(q)) ==> unchanged(q)
      ensures unchanged(this) && unchanged(asyncResponseList, pendingResponseList, observeList)
      ensures list != registrationList ==> unchanged(registrationList)
      ensures list != updateList ==> unchanged(updateList)
      ensures list != deregistrationList ==> unchanged(deregistrationList)
    {
      Drain(list);
    }

    method DrainCompleted(ghost known: set<Response>)
      requires ListsValid() && Separate(known)
      modifies asyncResponseList.Repr
      ensures ListsValid() && Separate(known) && asyncResponseList.Contents == []
      ensures forall q :: q in known && old(allocated(q)) ==> unchanged(q)
      ensures unchanged(this) && unchanged(registrationList, updateList, deregistrationList)
      ensures unchanged(pendingResponseList, observeList)
    {
      Drain(asyncResponseList);
    }

    // ---- The steps ---------------------------------------------------------------------------------------

    method AcceptPending(ghost s: State, r: Response)
      requires Represents(s) && Separate({r})
      modifies pendingResponseList.Repr
      ensures Represents(Accepted(s, r))
    {
      PushResponse(pendingResponseList, r, s.known + {r});
      RecordsKept((asyncResponseList.Contents, s.queues.completed));
    }

    method QueueCompleted(ghost s: State, r: Response)
      requires Represents(s) && r in s.known
      modifies asyncResponseList.Repr
      ensures Represents(Queued(s, Record(r, r.timestamp, r.status, r.payload))) && unchanged(r)
    {
      PushResponse(asyncResponseList, r, s.known);
      RecordsKept((old(asyncResponseList.Contents), s.queues.completed));
    }

    /** rest_notify_registration and its two siblings. */
    method NotifyRegistration(ghost s: State, n: Notification)
      requires Represents(s)
      modifies registrationList.Repr
      ensures Represents(RegistrationQueued(s, n.name))
    {
      NamesAdded(n, registrationList.Contents);
      PushNotification(registrationList, n, s.known);
      RecordsKept((asyncResponseList.Contents, s.queues.completed));
    }

    method NotifyUpdate(ghost s: State, n: Notification)
      requires Represents(s)
      modifies updateList.Repr
      ensures Represents(UpdateQueued(s, n.name))
    {
      NamesAdded(n, updateList.Contents);
      PushNotification(updateList, n, s.known);
      RecordsKept((asyncResponseList.Contents, s.queues.completed));
    }

    method NotifyDeregistration(ghost s: State, n: Notification)
      requires Represents(s)
      modifies deregistrationList.Repr
      ensures Represents(DeregistrationQueued(s, n.name))
    {
      NamesAdded(n, deregistrationList.Contents);
      PushNotification(deregistrationList, n, s.known);
      RecordsKept((asyncResponseList.Contents, s.queues.completed));
    }

    method NewNotification(ghost s: State, name: string) returns (n: Notification)
      requires Represents(s)
      ensures n.name == name && Represents(s)
    {
      n := new Notification(name);
    }

    /** A new response is apart from the lists. */
    method NewResponse(ghost s: State, id: string) returns (r: Response)
      requires Represents(s)
      ensures fresh(r) && r !in s.known && r.id == id && Separate({r})
      ensures Represents(s) && Represents(EventChannel.Refused(s, r))
    {
      r := new Response(id);
    }

    method NewRegistration(ghost s: State, name: string)
      requires Represents(s)
      modifies registrationList.Repr
      ensures Represents(RegistrationQueued(s, name))
    {
      var n := NewNotification(s, name);
      NotifyRegistration(s, n);
    }

    method NewUpdate(ghost s: State, name: string)
      requires Represents(s)
      modifies updateList.Repr
      ensures Represents(UpdateQueued(s, name))
    {
      var n := NewNotification(s, name);
      NotifyUpdate(s, n);
    }

    method NewDeregistration(ghost s: State, name: string)
      requires Represents(s)
      modifies deregistrationList.Repr
      ensures Represents(DeregistrationQueued(s, name))
    {
      var n := NewNotification(s, name);
      NotifyDeregistration(s, n);
    }

    method SetCallback(ghost s: State, target: Option<Json>)
      requires Represents(s)
      modifies this`callback
      ensures Represents(s.(callback := target))
    {
      callback := target;
    }

    /** The old callback is dropped and the new one stored. */
    method ReplaceCallback(ghost s: State, target: Json)
      requires Represents(s)
      modifies this`callback
      ensures Represents(Step(s, Event.SetCallback(target)))
    {
      StepIsStore(s, target);
      SetCallback(s, Some(target));
    }

    /** rest_async_cb: unlink, fill in, queue. */
    method AsyncCallback(ghost s: State, r: Response, status: int, data: seq<Byte>, now: int)
      requires Represents(s) && Owned(s) && r in s.transactions
      modifies r, pendingResponseList.Repr, asyncResponseList.Repr
      ensures var e := Complete(Record(r, now, CoapToHttpStatus(status), Some(Encode(data))));
              Enabled(s, e) && Represents(Step(s, e))
      ensures status == 0x44 || status == 0x45 ==> r.status == 200
      ensures status == 0x84 ==> r.status == 404
      ensures r.payload == Some(Encode(data))
    {
      CompleteIsStep(s, Record(r, now, CoapToHttpStatus(status), Some(Encode(data))));
      PendingIsUnqueued(s, r);
      Unlink(s, r);
      ghost var s' := s.(pending := RemoveFirst(s.pending, r), transactions := s.transactions - {r});
      Finish(s', r, CoapToHttpStatus(status), data, now);
    }

    /** The response gets its contents and goes into the queue. */
    method Finish(ghost s: State, r: Response, status: int, data: seq<Byte>, now: int)
      requires Represents(s) && r in s.known && r !in asyncResponseList.Contents
      modifies r, asyncResponseList.Repr
      ensures Represents(Queued(s, Record(r, now, status, Some(Encode(data)))))
      ensures r.status == status && r.payload == Some(Encode(data))
    {
      Fill(s, r, status, data, now);
      QueueCompleted(s, r);
    }

    method Unlink(ghost s: State, r: Response)
      requires Represents(s) && r in s.pending
      modifies pendingResponseList.Repr
      ensures Represents(s.(pending := RemoveFirst(s.pending, r), transactions := s.transactions - {r}))
    {
      UnlinkResponse(pendingResponseList, r, s.known);
      RecordsKept((asyncResponseList.Contents, s.queues.completed));
      forall q | q in pendingResponseList.Contents
        ensures q in s.known
      {
        RemoveFirstIsPart(s.pending, r, q);
      }
    }

    method Fill(ghost s: State, r: Response, status: int, data: seq<Byte>, now: int)
      requires Represents(s) && r in s.known && r !in asyncResponseList.Contents
      modifies r
      ensures Represents(s)
      ensures r.timestamp == now && r.status == status && r.payload == Some(Encode(data))
    {
      var err := r.Set(status, data, now);
      assert err == 0;
      RecordsKept((asyncResponseList.Contents, s.queues.completed));
    }

    /** rest_observe_cb: a clone with the same identifier is filled in and queued. */
    method ObserveCallback(ghost s: State, o: Observation, count: int, data: Option<seq<Byte>>, now: int)
      returns (clone: Response)
      requires Represents(s) && o in s.observations
      modifies asyncResponseList.Repr
      ensures fresh(clone) && clone.id == o.response.id
      ensures var status := if data.None? then CoapToHttpStatus(count) else HTTP_200_OK;
              var e := Notify(o, Record(clone, now, status, Some(Encode(if data.None? then [] else data.value))));
              Enabled(s, e) && Represents(Step(s, e))
    {
      clone := CloneWith(o.response, count, data, now);
      RecordsKept((asyncResponseList.Contents, s.queues.completed));
      NotifyIsStep(s, o, Record(clone, clone.timestamp, clone.status, clone.payload));
      QueueNew(s, clone);
    }

    method QueueNew(ghost s: State, r: Response)
      requires Represents(s) && Separate({r})
      modifies asyncResponseList.Repr
      ensures Represents(Notified(s, Record(r, r.timestamp, r.status, r.payload)))
    {
      QueueCompleted(s.(known := s.known + {r}), r);
    }

    /** rest_unobserve_cb; the library has removed the observation. */
    method UnobserveCallback(ghost s: State, o: Observation)
      requires Represents(s) && o in s.observations && o.response in s.observed
      modifies observeList.Repr
      ensures Enabled(s, Unobserve(o)) && Represents(Step(s, Unobserve(o)))
    {
      UnlinkListed(s, o.response);
    }

    method UnlinkListed(ghost s: State, r: Response)
      requires Represents(s) && r in s.observed
      modifies observeList.Repr
      ensures Represents(s.(observed := RemoveFirst(s.observed, r)))
    {
      UnlinkResponse(observeList, r, s.known);
      RecordsKept((asyncResponseList.Contents, s.queues.completed));
      forall q | q in observeList.Contents
        ensures q in s.known
      {
        RemoveFirstIsPart(s.observed, r, q);
      }
    }

    /** The library inserts the observation, and the handler lists its response. */
    method AddObservation(ghost s: State, o: Observation)
      requires Represents(s) && Separate({o.response})
      modifies observeList.Repr
      ensures Represents(NewlyObserved(s, o))
    {
      ListObserved(s, o.response);
    }

    method ListObserved(ghost s: State, r: Response)
      requires Represents(s) && Separate({r})
      modifies observeList.Repr
      ensures Represents(s.(observed := [r] + s.observed, known := s.known + {r}))
    {
      PushResponse(observeList, r, s.known + {r});
      RecordsKept((asyncResponseList.Contents, s.queues.completed));
    }

    // ---- Delivery ----------------------------------------------------------------------------------------

    /** rest_notifications_json: the four arrays, in list order. */
    method Body(ghost s: State) returns (body: Events)
      requires Represents(s)
      ensures body == s.queues && Represents(s)
    {
      body := Arrays(s);
    }

    method Arrays(ghost s: State) returns (body: Events)
      requires Represents(s)
      ensures body == s.queues
    {
      var registrations := NamesIn(registrationList);
      var updates := NamesIn(updateList);
      var deregistrations := NamesIn(deregistrationList);
      var completed := RecordsIn(asyncResponseList, s.queues.completed);
      body := Events(registrations, updates, deregistrations, completed);
    }

    /** rest_notifications_clear: heads are removed until each list is empty. */
    method Clear(ghost s: State)
      requires Represents(s)
      modifies registrationList.Repr, updateList.Repr, deregistrationList.Repr, asyncResponseList.Repr
      ensures Represents(Delivered(s))
    {
      ClearRegistrations(s);
      ClearUpdates(s.(queues := s.queues.(registrations := [])));
      ClearDeregistrations(s.(queues := s.queues.(registrations := [], updates := [])));
      ClearCompleted(s.(queues := s.queues.(registrations := [], updates := [], deregistrations := [])));
    }

    method ClearRegistrations(ghost s: State)
      requires Represents(s)
      modifies registrationList.Repr
      ensures Represents(s.(queues := s.queues.(registrations := [])))
    {
      DrainNotifications(registrationList, s.known);
      RecordsKept((asyncResponseList.Contents, s.queues.completed));
    }

    method ClearUpdates(ghost s: State)
      requires Represents(s)
      modifies updateList.Repr
      ensures Represents(s.(queues := s.queues.(updates := [])))
    {
      DrainNotifications(updateList, s.known);
      RecordsKept((asyncResponseList.Contents, s.queues.completed));
    }

    method ClearDeregistrations(ghost s: State)
      requires Represents(s)
      modifies deregistrationList.Repr
      ensures Represents(s.(queues := s.queues.(deregistrations := [])))
    {
      DrainNotifications(deregistrationList, s.known);
      RecordsKept((asyncResponseList.Contents, s.queues.completed));
    }

    method ClearCompleted(ghost s: State)
      requires Represents(s)
      modifies asyncResponseList.Repr
      ensures Represents(s.(queues := s.queues.(completed := [])))
    {
      DrainCompleted(s.known);
    }

    /** rest_notifications_pull_cb: the body is built, then the lists are cleared. */
    method Pull(ghost s: State) returns (body: Events)
      requires Represents(s)
      modifies registrationList.Repr, updateList.Repr, deregistrationList.Repr, asyncResponseList.Repr
      ensures body == s.queues && Represents(Step(s, Event.Pull))
    {
      assert Step(s, Event.Pull) == Delivered(s);
      body := Body(s);
      Clear(s);
    }

    /**
     * rest_step: with something queued and a callback set, the body is sent, and only a successful send clears
     * the lists. `credentials` says whether the client credentials could be copied, `sent` what the send returned;
     * `target` is the callback whose url and headers the request has.
     */
    method RestStep(ghost s: State, credentials: bool, sent: bool)
      returns (ret: int, body: Option<Events>, target: Option<Json>)
      requires Represents(s)
      modifies registrationList.Repr, updateList.Repr, deregistrationList.Repr, asyncResponseList.Repr
      ensures body == if s.queues != NO_EVENTS && s.callback.Some? && credentials then Some(s.queues) else None
      ensures ret == if s.queues != NO_EVENTS && s.callback.Some? && !credentials then -1 else 0
      ensures target == if body.Some? then s.callback else None
      ensures Represents(Step(s, Send(credentials && sent)))
    {
      SendIsStep(s, credentials && sent);
      target := callback;
      ret, body := SendQueued(s, credentials, sent);
      if body.None? {
        target := None;
      }
    }

    method SendQueued(ghost s: State, credentials: bool, sent: bool) returns (ret: int, body: Option<Events>)
      requires Represents(s)
      modifies registrationList.Repr, updateList.Repr, deregistrationList.Repr, asyncResponseList.Repr
      ensures body == if s.queues != NO_EVENTS && s.callback.Some? && credentials then Some(s.queues) else None
      ensures ret == if s.queues != NO_EVENTS && s.callback.Some? && !credentials then -1 else 0
      ensures Represents(if body.Some? && sent then Delivered(s) else s)
    {
      body, ret := None, 0;
      var ready := IsReady(s);
      if ready {
        var built := Body(s);
        if !credentials {
          return -1, None;
        }
        body := Some(built);
        SendBody(s, sent);
      }
    }

    /** The request with the body; a failure leaves the lists as they are. */
    method SendBody(ghost s: State, sent: bool)
      requires Represents(s)
      modifies registrationList.Repr, updateList.Repr, deregistrationList.Repr, asyncResponseList.Repr
      ensures Represents(if sent then Delivered(s) else s)
    {
      if sent {
        Clear(s);
      }
    }

    /** Something is queued, and a callback is set. */
    method IsReady(ghost s: State) returns (ready: bool)
      requires Represents(s)
      ensures ready <==> s.queues != NO_EVENTS && s.callback.Some?
      ensures Represents(s)
    {
      var idle := IsIdle(s);
      ready := !idle && callback.Some?;
    }

    method IsIdle(ghost s: State) returns (empty: bool)
      requires Represents(s)
      ensures empty <==> s.queues == NO_EVENTS
    {
      empty := registrationList.head == null && updateList.head == null && deregistrationList.head == null
               && asyncResponseList.head == null;
      assert registrationList.head == null <==> s.queues.registrations == [];
      assert updateList.head == null <==> s.queues.updates == [];
      assert deregistrationList.head == null <==> s.queues.deregistrations == [];
      assert asyncResponseList.head == null <==> s.queues.completed == [];
    }
  }

  /** The clone has the identifier of the original, and a status and payload of its own. */
  method CloneWith(original: Response, count: int, data: Option<seq<Byte>>, now: int) returns (clone: Response)
    ensures fresh(clone) && clone.id == original.id && clone.timestamp == now
    ensures clone.status == if data.None? then CoapToHttpStatus(count) else HTTP_200_OK
    ensures clone.payload == Some(Encode(if data.None? then [] else data.value))
    ensures data.Some? ==> clone.status == 200
    ensures data.None? && count == 0x84 ==> clone.status == 404
  {
    clone := new Response(original.id);
    var err := clone.Set(if data.None? then CoapToHttpStatus(count) else HTTP_200_OK,
                         if data.None? then [] else data.value, now);
  }

  method NamesIn(list: LinkedList<Notification>) returns (names: seq<string>)
    requires list.Valid()
    ensures names == Names(list.Contents)
  {
    names := [];
    var node := list.head;
    while node != null
      invariant |names| <= |list.Contents| && node == list.At(|names|)
      invariant forall i :: 0 <= i < |names| ==> names[i] == list.Contents[i].name
      decreases |list.Contents| - |names|
    {
      names := names + [node.data.name];
      node := node.next;
    }
  }

  method RecordsIn(list: LinkedList<Response>, ghost expected: seq<Record>) returns (records: seq<Record>)
    requires list.Valid() && RecordsOf(list.Contents, expected)
    ensures records == expected
  {
    records := [];
    var node := list.head;
    while node != null
      invariant |records| <= |list.Contents| && node == list.At(|records|)
      invariant forall i :: 0 <= i < |records| ==> records[i] == expected[i]
      decreases |list.Contents| - |records|
    {
      var r := node.data;
      records := records + [Record(r, r.timestamp, r.status, r.payload)];
      node := node.next;
    }
  }

  /** Removes the head until there is none. */
  method Drain<T(==)>(list: LinkedList<T>)
    requires list.Valid()
    modifies list.Repr
    ensures list.Valid() && list.Repr <= old(list.Repr) && list.Contents == []
  {
    while list.head != null
      invariant list.Valid() && list.Repr <= old(list.Repr)
      decreases |list.Contents|
    {
      var data := list.head.data;
      ghost var k := list.Remove(data);
    }
  }

  lemma PendingIsUnqueued(s: State, r: Response)
    requires Owned(s) && r in s.transactions
    ensures r in s.pending && r in s.known && r !in Responses(s.queues.completed)
  {
    HeldIsKnown(s, r);
    MultiplicityOne(s, r);
    assert multiset(s.pending)[r] > 0;
    assert r in Responses(s.queues.completed) ==> multiset(Responses(s.queues.completed))[r] > 0;
  }

  lemma NotifyIsStep(s: State, o: Observation, record: Record)
    ensures Notified(s, record) == Step(s, Notify(o, record))
  {
  }

  lemma SendIsStep(s: State, ok: bool)
    ensures (if s.queues != NO_EVENTS && s.callback.Some? && ok then Delivered(s) else s) == Step(s, Send(ok))
  {
  }

  lemma CompleteIsStep(s: State, record: Record)
    ensures Queued(s.(pending := RemoveFirst(s.pending, record.response),
                      transactions := s.transactions - {record.response}), record)
            == Step(s, Complete(record))
  {
  }

  lemma StepIsStore(s: State, target: Json)
    ensures s.(callback := Some(target)) == Step(s, Event.SetCallback(target))
  {
  }

  // ---- Runs on the heap ----------------------------------------------------------------------------------

  /** The context is in the state that these events lead to from the start of the program. */
  ghost predicate Reached(ctx: Context, events: seq<Event>)
    reads ctx, ctx.registrationList, ctx.updateList, ctx.deregistrationList
    reads ctx.asyncResponseList, ctx.pendingResponseList, ctx.observeList
    reads ctx.registrationList.Repr, ctx.updateList.Repr, ctx.deregistrationList.Repr
    reads ctx.asyncResponseList.Repr, ctx.pendingResponseList.Repr, ctx.observeList.Repr
    reads ctx.asyncResponseList.Contents
  {
    EnabledAll(INITIAL, events) && ctx.Represents(Run(INITIAL, events))
  }

  /** What a handler or callback promises for one event continues the run. */
  lemma ReachedNext(ctx: Context, events: seq<Event>, e: Event)
    requires EnabledAll(INITIAL, events) && Enabled(Run(INITIAL, events), e)
    requires ctx.Represents(Step(Run(INITIAL, events), e))
    ensures Reached(ctx, events + [e])
  {
    RunAppended(INITIAL, events, e);
  }

  lemma OnceIsNoDuplicates(list: seq<Response>)
    requires forall r :: r in list ==> multiset(list)[r] <= 1
    ensures NoDuplicates(list)
  {
    forall i, j | 0 <= i < j < |list|
      ensures list[i] != list[j]
    {
      var front, back := list[..j], list[j..];
      assert list == front + back;
      assert front[i] == list[i] && back[0] == list[j];
      assert multiset(list) == multiset(front) + multiset(back);
      assert list[i] in multiset(front) && list[j] in multiset(back) && list[i] in list;
    }
  }

  /** In every reachable context the three response lists are without duplicates and have no element in common. */
  lemma ListsAreDisjoint(ctx: Context, events: seq<Event>)
    requires Reached(ctx, events)
    ensures NoDuplicates(ctx.pendingResponseList.Contents) && NoDuplicates(ctx.observeList.Contents)
    ensures NoDuplicates(ctx.asyncResponseList.Contents)
    ensures forall r :: r in ctx.pendingResponseList.Contents ==>
              r !in ctx.observeList.Contents && r !in ctx.asyncResponseList.Contents
    ensures forall r :: r in ctx.observeList.Contents ==> r !in ctx.asyncResponseList.Contents
  {
    var s := Run(INITIAL, events);
    var queued := ctx.asyncResponseList.Contents;
    assert queued == Responses(s.queues.completed);
    RunKeepsOwned(INITIAL, events);
    HeldOnce(s);
    OnceIsNoDuplicates(s.pending);
    OnceIsNoDuplicates(s.observed);
    OnceIsNoDuplicates(queued);
  }

  lemma HeldOnce(s: State)
    requires Owned(s)
    ensures forall r :: r in s.pending ==>
              multiset(s.pending)[r] <= 1 && r !in s.observed && r !in Responses(s.queues.completed)
    ensures forall r :: r in s.observed ==> multiset(s.observed)[r] <= 1 && r !in Responses(s.queues.completed)
    ensures forall r :: r in Responses(s.queues.completed) ==> multiset(Responses(s.queues.completed))[r] <= 1
  {
    forall r | r in s.pending || r in s.observed || r in Responses(s.queues.completed)
      ensures multiset(s.pending)[r] + multiset(s.observed)[r] + multiset(Responses(s.queues.completed))[r] <= 1
    {
      MultiplicityOne(s, r);
    }
  }
}
