/**
 * The REST handlers for resources, subscriptions and the notification callback, and the monitoring callback.
 * What the library and the network answer comes in as parameters.
 */
module RestHandlers {
  import opened Wrappers
  import opened Base64
  import opened Json
  import opened AsyncResponse
  import opened EventChannel
  import opened EventChannelRuns
  import opened RequestTargets
  import opened RestContext
  import DeviceRequests

  /** An HTTP status with the identifier handed out, if any; or the web framework's error return. */
  datatype Reply = Reply(status: int, id: Option<string>) | CallbackError

  const COAP_201_CREATED: int := 0x41
  const COAP_202_DELETED: int := 0x42

  method LookupClient(clients: seq<Client>, name: Option<string>) returns (client: Option<nat>)
    ensures client == FindClient(clients, name)
  {
    if name.None? {
      return None;
    }
    for i := 0 to |clients|
      invariant FindClient(clients, name) == FindClient(clients[i..], name)
    {
      if clients[i].name == name.value {
        return Some(clients[i].internalID);
      }
      assert clients[i..][1..] == clients[i + 1..];
    }
    client := None;
  }

  /** The part that all resource and subscription handlers share: client, path, resource. */
  method CheckTarget(word: string, missing: int, clients: seq<Client>, name: Option<string>, url: Option<string>,
                     parse: string -> Option<Uri>) returns (verdict: Verdict)
    requires word != ""
    ensures verdict == Target(word, missing, clients, name, url, parse)
  {
    var client := LookupClient(clients, name);
    if client.None? {
      return Verdict.Refused(missing);
    }
    var prefix := word + (if name.Some? then name.value else "") + "/";
    if url.None? || |url.value| >= PATH_SIZE || |prefix| >= PATH_SIZE {
      return Failed;
    }
    if !(prefix <= url.value) {
      return Verdict.Refused(404);
    }
    var path := url.value[|prefix| - 1..];
    var uri := parse(path);
    if uri.None? {
      return Verdict.Refused(404);
    }
    verdict := Allowed(client.value, uri.value);
  }

  /** The action is that of the verb, and the format that of the payload, when there is one. */
  ghost predicate Suits(verb: string, contentType: Option<string>, action: Action, format: Option<Format>) {
    && ActionOf(verb) == Some(action)
    && match action
       case Read => true
       case Write => format.Some? && format == FormatOf(contentType)
       case Execute => format == Some(PlainText)
  }

  method CheckResource(verb: string, contentType: Option<string>, bodyLength: nat, clients: seq<Client>,
                       name: Option<string>, url: Option<string>, parse: string -> Option<Uri>)
    returns (verdict: Verdict, action: Action, format: Option<Format>)
    ensures verdict == ResourceVerdict(verb, contentType, bodyLength, clients, name, url, parse)
    ensures verdict.Allowed? ==> Suits(verb, contentType, action, format)
  {
    action, format := Read, None;
    if verb == "GET" {
    } else if verb == "PUT" {
      action := Write;
    } else if verb == "POST" {
      action := Execute;
    } else {
      verdict := Verdict.Refused(405);
      return;
    }
    if action == Write {
      format := FormatOf(contentType);
      if format.None? {
        verdict := Verdict.Refused(415);
        return;
      }
    } else if action == Execute {
      if contentType == None || contentType == Some("text/plain") {
        format := Some(PlainText);
      } else {
        verdict := Verdict.Refused(415);
        return;
      }
    }
    if action == Write && bodyLength == 0 {
      verdict := Verdict.Refused(400);
      return;
    }
    verdict := CheckTarget("/endpoints/", 410, clients, name, url, parse);
  }

  /** The checks, and which function of the library is to be called, and with what. */
  method CheckCall(verb: string, contentType: Option<string>, body: seq<Byte>, clients: seq<Client>,
                   name: Option<string>, url: Option<string>, parse: string -> Option<Uri>)
    returns (verdict: Verdict, call: Option<Call>)
    ensures verdict == ResourceVerdict(verb, contentType, |body|, clients, name, url, parse)
    ensures call == match verdict
                    case Allowed(client, uri) => CallOf(verb, contentType, client, uri, body)
                    case _ => None
  {
    var action, format;
    verdict, action, format := CheckResource(verb, contentType, |body|, clients, name, url, parse);
    call := None;
    if verdict.Allowed? {
      match action {
        case Read => call := Some(ReadCall(verdict.client, verdict.uri));
        case Write => call := Some(WriteCall(verdict.client, verdict.uri, format.value, body));
        case Execute => call := Some(ExecuteCall(verdict.client, verdict.uri, format.value, body));
      }
    }
  }

  /** A new response, pending when the library's call returns 0, and freed otherwise. */
  method NewTransaction(ctx: Context, ghost s: State, result: int, id: string)
    returns (reply: Reply, ghost r: Response)
    requires ctx.Represents(s)
    modifies ctx.pendingResponseList.Repr
    ensures fresh(r) && r.id == id
    ensures reply == if result == 0 then Reply(202, Some(id)) else CallbackError
    ensures Enabled(s, Accept(r, result == 0)) && ctx.Represents(Step(s, Accept(r, result == 0)))
  {
    var response := ctx.NewResponse(s, id);
    r := response;
    if result != 0 {
      return CallbackError, response;
    }
    ctx.AcceptPending(s, response);
    reply := Reply(202, Some(response.id));
  }

  /**
   * rest_resources_rwe_cb_unsafe. `result` is what the library's read, write or execute call returns, `id` the
   * identifier drawn for the new response.
   */
  method Resources(ctx: Context, ghost s: State, verb: string, contentType: Option<string>, body: seq<Byte>,
                   clients: seq<Client>, name: Option<string>, url: Option<string>, parse: string -> Option<Uri>,
                   result: int, id: string)
    returns (reply: Reply, call: Option<Call>, ghost r: Response?, ghost verdict: Verdict)
    requires ctx.Represents(s)
    modifies ctx.pendingResponseList.Repr
    ensures verdict == ResourceVerdict(verb, contentType, |body|, clients, name, url, parse)
    ensures reply == match verdict
                     case Refused(status) => Reply(status, None)
                     case Failed => CallbackError
                     case Allowed(_, _) => if result == 0 then Reply(202, Some(id)) else CallbackError
    ensures call == match verdict
                    case Allowed(client, uri) => CallOf(verb, contentType, client, uri, body)
                    case _ => None
    ensures r != null <==> verdict.Allowed?
    ensures r != null ==> fresh(r) && r.id == id && Enabled(s, Accept(r, result == 0))
    ensures r == null ==> ctx.Represents(s)
    ensures r != null ==> ctx.Represents(Step(s, Accept(r, result == 0)))
  {
    var checked, next := CheckCall(verb, contentType, body, clients, name, url, parse);
    call, r, verdict := next, null, checked;
    if !checked.Allowed? {
      reply := if checked.Failed? then CallbackError else Reply(checked.status, None);
      return;
    }
    reply, r := NewTransaction(ctx, s, result, id);
  }

  /** The walk over the library's observations of the client, stopping at the first with the same uri. */
  method SearchObservation(observations: seq<Observation>, client: nat, uri: Uri) returns (found: Option<Observation>)
    ensures found.Some? ==> found.value in observations && Matches(found.value, client, uri)
    ensures found.None? ==> forall o :: o in observations ==> !Matches(o, client, uri)
  {
    for i := 0 to |observations|
      invariant forall o :: o in observations[..i] ==> !Matches(o, client, uri)
    {
      var o := observations[i];
      if o.client == client && o.uri.flag == uri.flag && o.uri.objectId == uri.objectId
         && o.uri.instanceId == uri.instanceId && o.uri.resourceId == uri.resourceId {
        return Some(o);
      }
      assert observations[..i + 1] == observations[..i] + [o];
    }
    assert observations[..|observations|] == observations;
    found := None;
  }

  lemma FoundIsFind(s: State, observations: seq<Observation>, client: nat, uri: Uri, found: Option<Observation>)
    requires Subscribed(s) && s.observations == (set o | o in observations)
    requires found.Some? ==> found.value in observations && Matches(found.value, client, uri)
    requires found.None? ==> forall o :: o in observations ==> !Matches(o, client, uri)
    ensures Find(s.observations, client, uri) == found
  {
  }

  /** A new response, listed when the library's observe call returns 0, and freed otherwise. */
  method NewSubscription(ctx: Context, ghost s: State, client: nat, uri: Uri, result: int, id: string)
    returns (reply: Reply, ghost r: Response)
    requires ctx.Represents(s)
    modifies ctx.observeList.Repr
    ensures fresh(r) && r !in s.known && r.id == id
    ensures reply == if result == 0 then Reply(202, Some(id)) else CallbackError
    ensures ctx.Represents(if result == 0 then NewlyObserved(s, Observation(client, uri, r))
                           else EventChannel.Refused(s, r))
  {
    var response := ctx.NewResponse(s, id);
    r := response;
    if result != 0 {
      return CallbackError, response;
    }
    ctx.AddObservation(s, Observation(client, uri, response));
    reply := Reply(202, Some(response.id));
  }

  /** The identifier of the observation that is there already, or a new subscription. */
  method Subscribe(ctx: Context, ghost s: State, observations: seq<Observation>, client: nat, uri: Uri, result: int,
                   id: string) returns (reply: Reply, ghost r: Response?)
    requires ctx.Represents(s) && Subscribed(s) && s.observations == (set o | o in observations)
    modifies ctx.observeList.Repr
    ensures var found := Find(s.observations, client, uri);
            if found.Some? then r == null && reply == Reply(202, Some(found.value.response.id)) && ctx.Represents(s)
            else
              && r != null && fresh(r) && r.id == id
              && reply == (if result == 0 then Reply(202, Some(id)) else CallbackError)
              && Enabled(s, Event.Subscribe(client, uri, r, result == 0))
              && ctx.Represents(Step(s, Event.Subscribe(client, uri, r, result == 0)))
  {
    var found := SearchObservation(observations, client, uri);
    FoundIsFind(s, observations, client, uri, found);
    if found.Some? {
      return Reply(202, Some(found.value.response.id)), null;
    }
    reply, r := NewSubscription(ctx, s, client, uri, result, id);
  }

  /** rest_subscriptions_put_cb_unsafe. */
  method PutSubscription(ctx: Context, ghost s: State, observations: seq<Observation>, clients: seq<Client>,
                         name: Option<string>, url: Option<string>, parse: string -> Option<Uri>, result: int,
                         id: string)
    returns (reply: Reply, ghost r: Response?)
    requires ctx.Represents(s) && Subscribed(s) && s.observations == (set o | o in observations)
    modifies ctx.observeList.Repr
    ensures var verdict := Target("/subscriptions/", 404, clients, name, url, parse);
            if verdict.Allowed? then
              var found := Find(s.observations, verdict.client, verdict.uri);
              if found.Some? then r == null && reply == Reply(202, Some(found.value.response.id)) && ctx.Represents(s)
              else
                && r != null && fresh(r) && r.id == id
                && reply == (if result == 0 then Reply(202, Some(id)) else CallbackError)
                && Enabled(s, Event.Subscribe(verdict.client, verdict.uri, r, result == 0))
                && ctx.Represents(Step(s, Event.Subscribe(verdict.client, verdict.uri, r, result == 0)))
            else
              && r == null && reply == (if verdict.Failed? then CallbackError else Reply(verdict.status, None))
              && ctx.Represents(s)
  {
    var verdict := CheckTarget("/subscriptions/", 404, clients, name, url, parse);
    match verdict {
      case Refused(status) => return Reply(status, None), null;
      case Failed => return CallbackError, null;
      case Allowed(client, uri) =>
        reply, r := Subscribe(ctx, s, observations, client, uri, result, id);
    }
  }

  /**
   * rest_subscriptions_delete_cb_unsafe: the lists change later, when the cancellation completes. A mismatch
   * with the library (4.04) is only logged.
   */
  method DeleteSubscription(ghost s: State, observations: seq<Observation>, clients: seq<Client>,
                            name: Option<string>, url: Option<string>, parse: string -> Option<Uri>, result: int)
    returns (reply: Reply)
    requires Subscribed(s) && s.observations == (set o | o in observations)
    ensures var verdict := Target("/subscriptions/", 404, clients, name, url, parse);
            reply == match verdict
                     case Refused(status) => Reply(status, None)
                     case Failed => CallbackError
                     case Allowed(client, uri) =>
                       if Find(s.observations, client, uri).None? then Reply(404, None)
                       else if result == 0 || result == COAP_404_NOT_FOUND then Reply(204, None)
                       else CallbackError
  {
    var verdict := CheckTarget("/subscriptions/", 404, clients, name, url, parse);
    match verdict {
      case Refused(status) => return Reply(status, None);
      case Failed => return CallbackError;
      case Allowed(client, uri) =>
        var found := SearchObservation(observations, client, uri);
        FoundIsFind(s, observations, client, uri, found);
        if found.None? {
          return Reply(404, None);
        }
        if result == COAP_404_NOT_FOUND {
        } else if result != 0 {
          return CallbackError;
        }
        reply := Reply(204, None);
    }
  }

  /** client_monitor_cb: the event of a registration, an update, or a deregistration. */
  function MonitorEvent(status: int, name: string): Option<Event> {
    if status == COAP_201_CREATED then Some(Event.Registered(name))
    else if status == COAP_204_CHANGED then Some(Updated(name))
    else if status == COAP_202_DELETED then Some(Deregistered(name))
    else None
  }

  /** The queue that grows, by status: 2.01 Created, 2.04 Changed and 2.02 Deleted; none for any other. */
  lemma MonitorQueues(s: State, status: int, name: string)
    ensures var e, q := MonitorEvent(status, name), s.queues;
            if status == 0x41 then e.Some? && Step(s, e.value).queues == q.(registrations := [name] + q.registrations)
            else if status == 0x44 then e.Some? && Step(s, e.value).queues == q.(updates := [name] + q.updates)
            else if status == 0x42 then
              e.Some? && Step(s, e.value).queues == q.(deregistrations := [name] + q.deregistrations)
            else e == None
  {
  }

  method MonitorCallback(ctx: Context, ghost s: State, status: int, name: string)
    requires ctx.Represents(s)
    modifies ctx.registrationList.Repr, ctx.updateList.Repr, ctx.deregistrationList.Repr
    ensures var e := MonitorEvent(status, name); ctx.Represents(if e.Some? then Step(s, e.value) else s)
  {
    assert Step(s, Event.Registered(name)) == RegistrationQueued(s, name);
    assert Step(s, Updated(name)) == UpdateQueued(s, name);
    assert Step(s, Deregistered(name)) == DeregistrationQueued(s, name);
    if status == COAP_201_CREATED {
      ctx.NewRegistration(s, name);
    } else if status == COAP_204_CHANGED {
      ctx.NewUpdate(s, name);
    } else if status == COAP_202_DELETED {
      ctx.NewDeregistration(s, name);
    }
  }

  /** validate_callback; `reachable` is whether the test request to the url is answered. */
  method ValidateCallback(callback: Option<Json>, reachable: bool) returns (valid: bool)
    ensures valid <==> callback.Some? && ValidCallback(callback.value, reachable)
  {
    if callback.None? || !callback.value.Object? || |callback.value.fields| != 2 {
      return false;
    }
    var url := GetString(callback.value, "url");
    if url.None? {
      return false;
    }
    var headers := Get(callback.value, "headers");
    if headers.None? || !headers.value.Object? {
      return false;
    }
    var fields := headers.value.fields;
    for i := 0 to |fields|
      invariant forall k :: 0 <= k < i ==> fields[k].value.Text?
    {
      if !fields[i].value.Text? {
        assert fields[i] in fields;
        return false;
      }
    }
    valid := reachable;
  }

  method PutCallback(ctx: Context, ghost s: State, contentType: Option<string>, body: Option<Json>, reachable: bool)
    returns (status: int)
    requires ctx.Represents(s)
    modifies ctx`callback
    ensures status == if contentType != Some(DeviceRequests.JSON_TYPE) then 415
                      else if body.None? || !ValidCallback(body.value, reachable) then 400 else 204
    ensures ctx.Represents(if status == 204 then Step(s, Event.SetCallback(body.value)) else s)
  {
    if contentType != Some(DeviceRequests.JSON_TYPE) {
      return 415;
    }
    var valid := ValidateCallback(body, reachable);
    if !valid {
      return 400;
    }
    ctx.ReplaceCallback(s, body.value);
    status := 204;
  }

  method DeleteCallback(ctx: Context, ghost s: State) returns (status: int)
    requires ctx.Represents(s)
    modifies ctx`callback
    ensures status == if s.callback.Some? then 204 else 404
    ensures ctx.Represents(Step(s, ClearCallback))
  {
    if ctx.callback == None {
      return 404;
    }
    ctx.SetCallback(s, None);
    status := 204;
  }
}
