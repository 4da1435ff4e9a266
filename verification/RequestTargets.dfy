/** How the REST handlers for endpoints and subscriptions find their client and resource, or refuse. */
module RequestTargets {
  import opened Wrappers
  import opened Base64
  import opened Json
  import opened EventChannel

  datatype Client = Client(name: string, internalID: nat)

  /** An HTTP status, or the web framework's error return without one, or the go-ahead. */
  datatype Verdict = Refused(status: int) | Failed | Allowed(client: nat, uri: Uri)

  const PATH_SIZE: nat := 100

  /** rest_endpoints_find_client: the first client with the name. */
  function FindClient(clients: seq<Client>, name: Option<string>): (found: Option<nat>)
    ensures found.Some? ==> exists c :: c in clients && Some(c.name) == name && c.internalID == found.value
    ensures found.None? && name.Some? ==> forall c :: c in clients ==> c.name != name.value
  {
    if name.None? || clients == [] then None
    else if clients[0].name == name.value then Some(clients[0].internalID)
    else FindClient(clients[1..], name)
  }

  /** Of several clients with the name it is the first. */
  lemma {:induction false} FirstClient(clients: seq<Client>, name: string, k: nat)
    requires k < |clients| && clients[k].name == name && forall j :: 0 <= j < k ==> clients[j].name != name
    ensures FindClient(clients, Some(name)) == Some(clients[k].internalID)
  {
    if k > 0 {
      FirstClient(clients[1..], name, k - 1);
    }
  }

  /**
   * `word` is "/endpoints/" or "/subscriptions/", `missing` the status for an unknown client; `parse` stands
   * for lwm2m_stringToUri.
   */
  function Target(word: string, missing: int, clients: seq<Client>, name: Option<string>, url: Option<string>,
                  parse: string -> Option<Uri>): Verdict
    requires word != ""
  {
    var client := FindClient(clients, name);
    if client.None? then Refused(missing)
    else
      var prefix := word + (if name.Some? then name.value else "") + "/";
      if url.None? || |url.value| >= PATH_SIZE || |prefix| >= PATH_SIZE then Failed
      else if !(prefix <= url.value) then Refused(404)
      else
        var uri := parse(url.value[|prefix| - 1..]);
        if uri.None? then Refused(404) else Allowed(client.value, uri.value)
  }

  predicate Registered(clients: seq<Client>, name: Option<string>) {
    exists c :: c in clients && name == Some(c.name)
  }

  /** The url, or its beginning up to the path, does not fit the buffer it is compared in; or there is no url. */
  predicate TooLong(word: string, name: Option<string>, url: Option<string>) {
    url.None? || |url.value| >= 100 || |word| + (if name.Some? then |name.value| else 0) + 1 >= 100
  }

  /** The url spells the word, the name, and a path that parses. */
  ghost predicate Spelled(word: string, name: Option<string>, url: Option<string>, parse: string -> Option<Uri>) {
    name.Some? && url.Some? && exists path :: IsPath(word, name.value, url.value, path) && parse(path).Some?
  }

  predicate IsPath(word: string, name: string, url: string, path: string) {
    url == word + name + path && path != "" && path[0] == '/'
  }

  /** The only path there can be is what follows the word and the name. */
  lemma PathIs(word: string, name: string, url: string, path: string)
    requires IsPath(word, name, url, path)
    ensures var prefix := word + name + "/"; prefix <= url && path == url[|prefix| - 1..]
  {
    var prefix := word + name + "/";
    assert url[..|prefix|] == word + name + path[..1];
    assert path[..1] == "/";
  }

  lemma PathAfter(word: string, name: string, url: string)
    requires word + name + "/" <= url
    ensures IsPath(word, name, url, url[|word + name + "/"| - 1..])
  {
    var prefix := word + name + "/";
    var path := url[|prefix| - 1..];
    assert url[..|prefix|] == prefix;
    assert url == url[..|prefix| - 1] + path;
    assert url[..|prefix| - 1] == prefix[..|prefix| - 1] == word + name;
    assert path[0] == prefix[|prefix| - 1];
  }

  lemma SpelledExactly(word: string, name: Option<string>, url: Option<string>, parse: string -> Option<Uri>)
    requires name.Some? && url.Some?
    ensures var prefix := word + name.value + "/";
            Spelled(word, name, url, parse) <==> prefix <= url.value && parse(url.value[|prefix| - 1..]).Some?
  {
    var prefix := word + name.value + "/";
    if path :| IsPath(word, name.value, url.value, path) && parse(path).Some? {
      PathIs(word, name.value, url.value, path);
    } else if prefix <= url.value {
      PathAfter(word, name.value, url.value);
    }
  }

  /** What each verdict of the shared checks means. */
  lemma TargetMeans(word: string, missing: int, clients: seq<Client>, name: Option<string>, url: Option<string>,
                    parse: string -> Option<Uri>)
    requires word != ""
    ensures var v := Target(word, missing, clients, name, url, parse);
            && (!Registered(clients, name) ==> v == Refused(missing))
            && (Registered(clients, name) ==>
                 && (v.Failed? <==> TooLong(word, name, url))
                 && (v.Allowed? <==> !TooLong(word, name, url) && Spelled(word, name, url, parse))
                 && (v.Refused? ==> v == Refused(404)))
  {
    if Registered(clients, name) {
      var c :| c in clients && name == Some(c.name);
      if url.Some? {
        SpelledExactly(word, name, url, parse);
      }
    }
  }

  /** The go-ahead names a registered client of that name and the parsed path behind it in the url. */
  lemma AllowedTarget(word: string, missing: int, clients: seq<Client>, name: Option<string>, url: Option<string>,
                      parse: string -> Option<Uri>)
    requires word != "" && Target(word, missing, clients, name, url, parse).Allowed?
    ensures var t := Target(word, missing, clients, name, url, parse);
            && name.Some? && url.Some?
            && (exists c :: c in clients && c.name == name.value && c.internalID == t.client)
            && exists path :: IsPath(word, name.value, url.value, path) && parse(path) == Some(t.uri)
  {
    PathAfter(word, name.value, url.value);
  }

  datatype Action = Read | Write | Execute

  function ActionOf(verb: string): Option<Action> {
    if verb == "GET" then Some(Read) else if verb == "PUT" then Some(Write)
    else if verb == "POST" then Some(Execute) else None
  }

  datatype Format = Tlv | JsonFormat | Opaque | PlainText

  /** http_to_coap_format. */
  function FormatOf(contentType: Option<string>): Option<Format> {
    if contentType == Some("application/vnd.oma.lwm2m+tlv") then Some(Tlv)
    else if contentType == Some("application/vnd.oma.lwm2m+json") then Some(JsonFormat)
    else if contentType == Some("application/octet-stream") then Some(Opaque)
    else None
  }

  /** The checks of a resource request, in the order of the handler. */
  function ResourceVerdict(verb: string, contentType: Option<string>, bodyLength: nat, clients: seq<Client>,
                           name: Option<string>, url: Option<string>, parse: string -> Option<Uri>): Verdict {
    var action := ActionOf(verb);
    if action.None? then Refused(405)
    else if action.value == Write && FormatOf(contentType).None? then Refused(415)
    else if action.value == Execute && contentType != None && contentType != Some("text/plain") then Refused(415)
    else if action.value == Write && bodyLength == 0 then Refused(400)
    else Target("/endpoints/", 410, clients, name, url, parse)
  }

  /** The call to the library, with the payload when there is one. */
  datatype Call =
    | ReadCall(client: nat, uri: Uri)
    | WriteCall(client: nat, uri: Uri, format: Format, payload: seq<Byte>)
    | ExecuteCall(client: nat, uri: Uri, format: Format, payload: seq<Byte>)

  function CallOf(verb: string, contentType: Option<string>, client: nat, uri: Uri, body: seq<Byte>): Option<Call> {
    var action, format := ActionOf(verb), FormatOf(contentType);
    if action == Some(Read) then Some(ReadCall(client, uri))
    else if action == Some(Write) && format.Some? then Some(WriteCall(client, uri, format.value, body))
    else if action == Some(Execute) then Some(ExecuteCall(client, uri, PlainText, body))
    else None
  }

  /** A GET reads; a PUT writes the body in the format of its type; a POST executes, with the body as plain text. */
  lemma CallMeans(contentType: Option<string>, client: nat, uri: Uri, body: seq<Byte>)
    ensures CallOf("GET", contentType, client, uri, body) == Some(ReadCall(client, uri))
    ensures CallOf("POST", contentType, client, uri, body) == Some(ExecuteCall(client, uri, PlainText, body))
    ensures CallOf("PUT", Some("application/vnd.oma.lwm2m+tlv"), client, uri, body)
         == Some(WriteCall(client, uri, Tlv, body))
    ensures CallOf("PUT", Some("application/vnd.oma.lwm2m+json"), client, uri, body)
         == Some(WriteCall(client, uri, JsonFormat, body))
    ensures CallOf("PUT", Some("application/octet-stream"), client, uri, body)
         == Some(WriteCall(client, uri, Opaque, body))
  {
    assert "GET"[0] == 'G' && "PUT"[1] == 'U' && "POST"[1] == 'O';
    var tlv, octets := "application/vnd.oma.lwm2m+tlv", "application/octet-stream";
    assert |tlv| == 29 && |octets| == 24;
  }

  predicate WriteType(contentType: Option<string>) {
    || contentType == Some("application/vnd.oma.lwm2m+tlv") || contentType == Some("application/vnd.oma.lwm2m+json")
    || contentType == Some("application/octet-stream")
  }

  predicate ExecuteType(contentType: Option<string>) {
    contentType == None || contentType == Some("text/plain")
  }

  /** The content type and the body suit the verb. */
  predicate Suitable(verb: string, contentType: Option<string>, bodyLength: nat) {
    || verb == "GET"
    || (verb == "PUT" && WriteType(contentType) && bodyLength > 0)
    || (verb == "POST" && ExecuteType(contentType))
  }

  /** What each verdict on a resource request means: every status has its own condition, and one of them holds. */
  lemma ResourceVerdictMeans(verb: string, contentType: Option<string>, bodyLength: nat, clients: seq<Client>,
                             name: Option<string>, url: Option<string>, parse: string -> Option<Uri>)
    ensures var v, word := ResourceVerdict(verb, contentType, bodyLength, clients, name, url, parse), "/endpoints/";
            var suitable, registered := Suitable(verb, contentType, bodyLength), Registered(clients, name);
            && (v == Refused(405) <==> verb != "GET" && verb != "PUT" && verb != "POST")
            && (v == Refused(415) <==>
                 (verb == "PUT" && !WriteType(contentType)) || (verb == "POST" && !ExecuteType(contentType)))
            && (v == Refused(400) <==> verb == "PUT" && WriteType(contentType) && bodyLength == 0)
            && (v == Refused(410) <==> suitable && !registered)
            && (v == Failed <==> suitable && registered && TooLong(word, name, url))
            && (v.Allowed? <==> suitable && registered && !TooLong(word, name, url) && Spelled(word, name, url, parse))
            && (v == Refused(404) <==>
                 suitable && registered && !TooLong(word, name, url) && !Spelled(word, name, url, parse))
  {
    assert "GET"[0] == 'G' && "PUT"[1] == 'U' && "POST"[1] == 'O';
    TargetMeans("/endpoints/", 410, clients, name, url, parse);
  }

  /** A read of a resource of the second client, with whatever content type and body. */
  lemma ReadIsAllowed(contentType: Option<string>, bodyLength: nat, parse: string -> Option<Uri>)
    requires parse("/3/0/9").Some?
    ensures var clients := [Client("pump", 4), Client("lamp", 7)];
            ResourceVerdict("GET", contentType, bodyLength, clients, Some("lamp"), Some("/endpoints/lamp/3/0/9"), parse)
            == Allowed(7, parse("/3/0/9").value)
  {
    var clients := [Client("pump", 4), Client("lamp", 7)];
    assert "pump"[0] == 'p' && "lamp"[0] == 'l';
    assert FindClient(clients[1..], Some("lamp")) == Some(7);
    var url, prefix := "/endpoints/lamp/3/0/9", "/endpoints/" + "lamp" + "/";
    assert prefix == "/endpoints/lamp/" == url[..16];
    assert url[|prefix| - 1..] == "/3/0/9";
  }

  /** A callback must be an object of a text url and an object of text headers, and its url must answer. */
  predicate ValidCallback(j: Json, reachable: bool) {
    && j.Object? && |j.fields| == 2
    && GetString(j, "url").Some?
    && Get(j, "headers").Some? && Get(j, "headers").value.Object?
    && (forall f :: f in Get(j, "headers").value.fields ==> f.value.Text?)
    && reachable
  }

  /** A text url, and an object of text headers. */
  ghost predicate UrlAndHeaders(url: Field, headers: Field) {
    && url.key == "url" && url.value.Text?
    && headers.key == "headers" && headers.value.Object?
    && forall f :: f in headers.value.fields ==> f.value.Text?
  }

  /** Exactly these are accepted: an object of these two fields, in either order, whose url answers. */
  lemma ValidCallbackMeans(j: Json, reachable: bool)
    ensures ValidCallback(j, reachable) <==>
              && reachable && j.Object? && |j.fields| == 2
              && (UrlAndHeaders(j.fields[0], j.fields[1]) || UrlAndHeaders(j.fields[1], j.fields[0]))
  {
    assert "url"[0] == 'u' && "headers"[0] == 'h';
    if j.Object? && |j.fields| == 2 {
      assert j.fields == [j.fields[0], j.fields[1]] && j.fields[1..] == [j.fields[1]];
      var url := FirstWithKeyMeans(j.fields, "url");
      var headers := FirstWithKeyMeans(j.fields, "headers");
    }
  }
}
