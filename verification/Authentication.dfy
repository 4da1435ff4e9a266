/**
 * The three lookups that tie a DTLS session to a device: the key for the handshake, the identifier set when it
 * is done, and the endpoint name accepted at registration.
 */
module Authentication {
  import opened Wrappers
  import opened Base64
  import opened Json
  import opened Devices
  import opened DeviceStore
  import opened DeviceRequests
  import opened LinkedList
  import opened DeviceDatabase
  import DtlsConnections
  import DtlsSessions

  // ---- The lookups as functions --------------------------------------------------------------------------

  /** The position of the first PSK device with a public key; the length of the list when there is none. */
  function PskPosition(devices: seq<Device>, name: seq<Byte>): (p: nat)
    ensures p <= |devices|
    ensures p < |devices| ==> devices[p].mode == Psk && devices[p].publicKey == name
    ensures forall i :: 0 <= i < p ==> !(devices[i].mode == Psk && devices[i].publicKey == name)
  {
    FirstIndex(devices, (d: Device) => d.mode == Psk && d.publicKey == name)
  }

  /** The position of the first device of any mode with a public key. */
  function KeyPosition(devices: seq<Device>, publicKey: seq<Byte>): (p: nat)
    ensures p <= |devices|
    ensures p < |devices| ==> devices[p].publicKey == publicKey
    ensures forall i :: 0 <= i < p ==> devices[i].publicKey != publicKey
  {
    FirstIndex(devices, (d: Device) => d.publicKey == publicKey)
  }

  function IdentifierOf(devices: seq<Device>, publicKey: seq<Byte>): Option<string> {
    var p := KeyPosition(devices, publicKey);
    if p < |devices| then Some(devices[p].uuid) else None
  }

  /** Without identifiers (plain UDP) every name is valid; otherwise it must be that of the identified device. */
  predicate NameValid(hasIdentifiers: bool, devices: seq<Device>, identifier: Option<string>, name: string) {
    hasIdentifiers ==>
      && identifier.Some?
      && var device := Lookup(devices, identifier.value); device.Some? && device.value.name == name
  }

  /** Without identifiers every name is valid, whatever the list and the session. */
  lemma EveryNameWithoutIdentifiers(devices: seq<Device>, identifier: Option<string>, name: string)
    ensures NameValid(false, devices, identifier, name)
  {
  }

  /** With identifiers a name is valid exactly when the first device with the session's identifier has it. */
  lemma NameOfFirstDevice(devices: seq<Device>, identifier: Option<string>, name: string)
    ensures NameValid(true, devices, identifier, name)
            <==> exists p: nat :: p < |devices| && Some(devices[p].uuid) == identifier && devices[p].name == name
                                  && forall i :: 0 <= i < p ==> Some(devices[i].uuid) != identifier
  {
    if identifier.Some? {
      var q := Position(devices, identifier.value);
      if p: nat :| p < |devices| && Some(devices[p].uuid) == identifier
                   && forall i :: 0 <= i < p ==> Some(devices[i].uuid) != identifier {
        assert q == p;
      }
    }
  }

  lemma PskPositionIs(devices: seq<Device>, name: seq<Byte>, k: nat)
    requires k <= |devices|
    requires forall i :: 0 <= i < k ==> !(devices[i].mode == Psk && devices[i].publicKey == name)
    requires k < |devices| ==> devices[k].mode == Psk && devices[k].publicKey == name
    ensures PskPosition(devices, name) == k
  {
  }

  lemma KeyPositionIs(devices: seq<Device>, publicKey: seq<Byte>, k: nat)
    requires k <= |devices| && forall i :: 0 <= i < k ==> devices[i].publicKey != publicKey
    requires k < |devices| ==> devices[k].publicKey == publicKey
    ensures KeyPosition(devices, publicKey) == k
  {
  }

  // ---- The program's loops -------------------------------------------------------------------------------

  /** The list that a callback walks; a missing list holds no devices. */
  ghost predicate Holds(list: LinkedList?<Entry>, devices: seq<Device>)
    reads list, if list == null then {} else list.Repr, if list == null then [] else list.Contents
  {
    if list == null then devices == [] else list.Valid() && devices == DevicesOf(list.Contents)
  }

  /** psk_find_callback. */
  method PskFind(list: LinkedList?<Entry>, ghost devices: seq<Device>, name: seq<Byte>)
    returns (ret: int, secretKey: seq<Byte>)
    requires Holds(list, devices)
    ensures var p := PskPosition(devices, name);
            if p < |devices| then ret == 0 && secretKey == devices[p].secretKey else ret == -1
  {
    secretKey := [];
    if list == null {
      return -1, secretKey;
    }
    var node := list.head;
    ghost var k := 0;
    while node != null
      invariant k <= |devices| && node == list.At(k)
      invariant forall i :: 0 <= i < k ==> !(devices[i].mode == Psk && devices[i].publicKey == name)
      decreases |devices| - k
    {
      var entry := node.data;
      assert entry.Value() == devices[k];
      if entry.mode == Psk && |entry.publicKey| == |name| && name == entry.publicKey {
        PskPositionIs(devices, name, k);
        return 0, entry.secretKey;
      }
      node := node.next;
      k := k + 1;
    }
    PskPositionIs(devices, name, k);
    ret := -1;
  }

  /** identifier_find_callback. */
  method IdentifierFind(list: LinkedList?<Entry>, ghost devices: seq<Device>, session: DtlsSessions.Connection,
                        publicData: seq<Byte>) returns (ret: int)
    requires Holds(list, devices)
    modifies session
    ensures var identifier := IdentifierOf(devices, publicData);
            && ret == (if identifier.Some? then 0 else -1)
            && session.identifier == (if identifier.Some? then identifier else old(session.identifier))
    ensures session.address == old(session.address) && session.handshakeDone == old(session.handshakeDone)
  {
    if list == null {
      return -1;
    }
    var node := list.head;
    ghost var k := 0;
    while node != null
      invariant k <= |devices| && node == list.At(k)
      invariant forall i :: 0 <= i < k ==> devices[i].publicKey != publicData
      invariant unchanged(session)
      decreases |devices| - k
    {
      var entry := node.data;
      assert entry.Value() == devices[k];
      if |publicData| == |entry.publicKey| && publicData == entry.publicKey {
        KeyPositionIs(devices, publicData, k);
        ret := DtlsConnections.SetIdentifier(session, entry.uuid);
        return 0;
      }
      node := node.next;
      k := k + 1;
    }
    KeyPositionIs(devices, publicData, k);
    ret := -1;
  }

  /** lwm2m_name_is_valid. */
  method NameIsValid(list: LinkedList<Entry>, ghost devices: seq<Device>, hasIdentifiers: bool,
                     session: DtlsSessions.Connection?, name: string) returns (valid: bool)
    requires list.Valid() && devices == DevicesOf(list.Contents)
    ensures valid == NameValid(hasIdentifiers, devices, if session == null then None else session.identifier, name)
  {
    if !hasIdentifiers {
      return true;
    }
    var uuid := DtlsConnections.GetIdentifier(session);
    if uuid.None? {
      return false;
    }
    var entry, p := FindByUuid(list, devices, uuid.value);
    if entry == null {
      return false;
    }
    assert entry.Value() == devices[p];
    valid := entry.name == name;
  }

  // ---- The lookups agree ---------------------------------------------------------------------------------

  ghost predicate DistinctPublicKeys(devices: seq<Device>) {
    forall i, j :: 0 <= i < j < |devices| && devices[i].publicKey != [] ==> devices[i].publicKey != devices[j].publicKey
  }

  /** A PSK name arrives as a C string. */
  predicate ZeroFree(name: seq<Byte>) {
    0 !in name
  }

  /** The first device with the public key of a PSK device is itself a PSK device, as far as names can spell the key. */
  ghost predicate PskKeysComeFirst(devices: seq<Device>) {
    forall j :: 0 <= j < |devices| && devices[j].mode == Psk && ZeroFree(devices[j].publicKey) ==>
      devices[KeyPosition(devices, devices[j].publicKey)].mode == Psk
  }

  ghost predicate LookupsAgree(devices: seq<Device>, name: seq<Byte>) {
    PskPosition(devices, name) < |devices| ==> KeyPosition(devices, name) == PskPosition(devices, name)
  }

  lemma DistinctKeysSuffice(devices: seq<Device>)
    requires AllWellFormed(devices) && DistinctPublicKeys(devices)
    ensures PskKeysComeFirst(devices)
  {
    forall j | 0 <= j < |devices| && devices[j].mode == Psk
      ensures KeyPosition(devices, devices[j].publicKey) == j
    {
      assert WellFormed(devices[j]);
    }
  }

  /** The device whose secret is used in a handshake is the device that is identified, for every name. */
  lemma AgreeExactlyWhenPskKeysComeFirst(devices: seq<Device>)
    ensures (forall name :: ZeroFree(name) ==> LookupsAgree(devices, name)) <==> PskKeysComeFirst(devices)
  {
    if forall name :: ZeroFree(name) ==> LookupsAgree(devices, name) {
      forall j | 0 <= j < |devices| && devices[j].mode == Psk && ZeroFree(devices[j].publicKey)
        ensures devices[KeyPosition(devices, devices[j].publicKey)].mode == Psk
      {
        assert LookupsAgree(devices, devices[j].publicKey);
      }
    }
    if PskKeysComeFirst(devices) {
      forall name | ZeroFree(name)
        ensures LookupsAgree(devices, name)
      {
        var p := PskPosition(devices, name);
        if p < |devices| {
          assert devices[KeyPosition(devices, devices[p].publicKey)].mode == Psk;
        }
      }
    }
  }

  /** A certificate entry of the file may carry the public key of a PSK entry; then they do not agree. */
  lemma SharedKeyDisagrees()
    ensures var devices := [Device("a", "a", Cert, [1], [], [1]), Device("b", "b", Psk, [1], [2], [])];
            Sound(devices) && ZeroFree([1]) && !LookupsAgree(devices, [1])
  {
    var devices := [Device("a", "a", Cert, [1], [], [1]), Device("b", "b", Psk, [1], [2], [])];
    assert "a"[0] != "b"[0];
    assert devices[0].publicKey == devices[1].publicKey == [1];
    assert devices[1].mode == Psk;
    assert KeyPosition(devices, [1]) == 0;
  }

  // ---- Names after requests ------------------------------------------------------------------------------

  /** What becomes of one device, told by the requests alone. */
  function Tracked(known: Option<Device>, changes: seq<Change>, uuid: string): Option<Device>
    decreases |changes|
  {
    if changes == [] then known
    else
      var next := match changes[0]
                  case Post(d) => if d.uuid == uuid then Some(d) else known
                  case Put(id, name) => if id == uuid && known.Some? then Some(known.value.(name := name)) else known
                  case Delete(id) => if id == uuid then None else known;
      Tracked(next, changes[1..], uuid)
  }

  lemma {:induction false} LookupAfterRun(s: Store, changes: seq<Change>, uuid: string)
    requires Sound(s.devices) && AdmissibleRun(s, changes)
    ensures Lookup(Run(s, changes).devices, uuid) == Tracked(Lookup(s.devices, uuid), changes, uuid)
    decreases |changes|
  {
    if changes != [] {
      StepKeepsSound(s, changes[0]);
      if Effective(s.devices, changes[0]) {
        LookupAfter(s.devices, changes[0], uuid);
      }
      LookupAfterRun(Step(s, changes[0]), changes[1..], uuid);
    }
  }

  /** The name given by the last renaming, or the original one. */
  function LastName(changes: seq<Change>, uuid: string, original: string): string {
    if changes == [] then original
    else LastName(changes[1..], uuid, if changes[0].Put? && changes[0].id == uuid then changes[0].name else original)
  }

  lemma {:induction false} TrackedName(d: Device, changes: seq<Change>)
    requires Change.Delete(d.uuid) !in changes
    requires forall c :: c in changes && c.Post? ==> c.device.uuid != d.uuid
    ensures Tracked(Some(d), changes, d.uuid) == Some(d.(name := LastName(changes, d.uuid, d.name)))
    decreases |changes|
  {
    if changes != [] {
      var next := if changes[0].Put? && changes[0].id == d.uuid then d.(name := changes[0].name) else d;
      TrackedName(next, changes[1..]);
    }
  }

  lemma {:induction false} ListedIsNotPosted(s: Store, changes: seq<Change>, uuid: string)
    requires Sound(s.devices) && AdmissibleRun(s, changes)
    requires Lookup(s.devices, uuid).Some? && Change.Delete(uuid) !in changes
    ensures forall c :: c in changes && c.Post? ==> c.device.uuid != uuid
    decreases |changes|
  {
    if changes != [] {
      StepKeepsSound(s, changes[0]);
      if Effective(s.devices, changes[0]) {
        LookupAfter(s.devices, changes[0], uuid);
      }
      ListedIsNotPosted(Step(s, changes[0]), changes[1..], uuid);
    }
  }

  /** As long as its device is not deleted, a session is accepted under the current name and no other. */
  lemma AcceptedExactlyUnderCurrentName(s: Store, changes: seq<Change>, d: Device, name: string)
    requires Sound(s.devices) && AdmissibleRun(s, changes)
    requires Lookup(s.devices, d.uuid) == Some(d) && Change.Delete(d.uuid) !in changes
    ensures NameValid(true, Run(s, changes).devices, Some(d.uuid), name) <==> name == LastName(changes, d.uuid, d.name)
  {
    LookupAfterRun(s, changes, d.uuid);
    ListedIsNotPosted(s, changes, d.uuid);
    TrackedName(d, changes);
  }

  /** The name of a device after requests: that in the last PUT that is answered with 201, or the original one. */
  function NameAfter(requests: seq<Request>, uuid: string, original: string): string {
    if requests == [] then original else NameAfter(requests[1..], uuid, NameAfterOne(requests[0], uuid, original))
  }

  function NameAfterOne(request: Request, uuid: string, original: string): string {
    if request.PutDevice? && request.contentType == Some("application/json") && request.id == Some(uuid)
       && request.body.Some? && GetString(request.body.value, "name").Some?
    then GetString(request.body.value, "name").value else original
  }

  lemma ListedAfterOne(s: Store, request: Request, uuid: string)
    requires GoodRequest(s, request) && request != DeleteDevice(Some(uuid)) && Lookup(s.devices, uuid).Some?
    ensures Lookup(Served(s, request).devices, uuid)
         == Some(Lookup(s.devices, uuid).value.(
                   name := NameAfterOne(request, uuid, Lookup(s.devices, uuid).value.name)))
  {
    match request
    case PostDevice(_, _, entropy) => PostMeans(s, request);
    case PutDevice(contentType, id, body) => ListedAfterPut(s, contentType, id, body, uuid);
    case DeleteDevice(id) => DeleteMeans(s, id);
  }

  lemma ListedAfterPut(s: Store, contentType: Option<string>, id: Option<string>, body: Option<Json>, uuid: string)
    requires Lookup(s.devices, uuid).Some?
    ensures var request := PutDevice(contentType, id, body);
            Lookup(Served(s, request).devices, uuid)
            == Some(Lookup(s.devices, uuid).value.(
                      name := NameAfterOne(request, uuid, Lookup(s.devices, uuid).value.name)))
  {
    NotListed(s.devices, uuid);
    PutMeans(s, contentType, id, body);
  }

  /**
   * Whatever the list and the requests, as long as its device is not deleted a session is accepted under the name
   * that the requests gave it and no other.
   */
  lemma {:induction false} AcceptedUnderRequestedName(s: Store, requests: seq<Request>, uuid: string, name: string)
    requires GoodRequests(s, requests) && DeleteDevice(Some(uuid)) !in requests && Lookup(s.devices, uuid).Some?
    ensures NameValid(true, ServedAll(s, requests).devices, Some(uuid), name)
            <==> name == NameAfter(requests, uuid, Lookup(s.devices, uuid).value.name)
    decreases |requests|
  {
    if requests != [] {
      ListedAfterOne(s, requests[0], uuid);
      AcceptedUnderRequestedName(Served(s, requests[0]), requests[1..], uuid, name);
    }
  }

  /** A device that is renamed by PUT is accepted under its new name and no other, until a request is about it again. */
  lemma RenamedThenAccepted(s: Store, uuid: string, body: Json, requests: seq<Request>, name: string)
    requires Lookup(s.devices, uuid).Some? && GetString(body, "name").Some?
    requires var put := PutDevice(Some("application/json"), Some(uuid), Some(body));
             GoodRequests(Served(s, put), requests)
    requires forall r :: r in requests ==> r != DeleteDevice(Some(uuid)) && (r.PutDevice? ==> r.id != Some(uuid))
    ensures var put := PutDevice(Some("application/json"), Some(uuid), Some(body));
            && OutcomeOf(s, put).status == 201
            && (NameValid(true, ServedAll(Served(s, put), requests).devices, Some(uuid), name)
                <==> name == GetString(body, "name").value)
  {
    var put := PutDevice(Some("application/json"), Some(uuid), Some(body));
    PutMeans(s, put.contentType, put.id, put.body);
    assert s.devices[Position(s.devices, uuid)] in s.devices;
    NameStays(requests, uuid, GetString(body, "name").value);
    AcceptedUnderRequestedName(Served(s, put), requests, uuid, name);
  }

  lemma {:induction false} NameStays(requests: seq<Request>, uuid: string, original: string)
    requires forall r :: r in requests && r.PutDevice? ==> r.id != Some(uuid)
    ensures NameAfter(requests, uuid, original) == original
  {
    if requests != [] {
      NameStays(requests[1..], uuid, original);
    }
  }

  /** A device that is deleted is accepted under no name, until a POST makes one with its uuid. */
  lemma DeletedThenRefused(s: Store, uuid: string, name: string)
    requires DistinctUuids(s.devices)
    ensures !NameValid(true, Served(s, DeleteDevice(Some(uuid))).devices, Some(uuid), name)
  {
    DeleteMeans(s, Some(uuid));
    NotListed(s.devices, uuid);
  }

  /**
   * The whole chain, for handshakes of either kind. A session finishes its handshake under some public data.
   * Then, after any further traffic and any requests that do not delete the device it was identified as, an
   * endpoint name is accepted for that session exactly when it is the name that the first device with this
   * public key has by then.
   */
  lemma SessionSpeaksForIdentifiedDevice(s: DtlsSessions.State, e: DtlsSessions.Event, traffic: seq<DtlsSessions.Event>,
                                         store: Store, changes: seq<Change>, link: DtlsSessions.Link, name: string)
    requires DtlsSessions.Authenticated(s) && DtlsSessions.Enabled(s, e)
    requires DtlsSessions.EnabledAll(DtlsSessions.Step(s, e), traffic)
    requires DtlsSessions.Received(s.table, e.input, e.spare).bound.Some?
    requires var b := DtlsSessions.Received(s.table, e.input, e.spare).bound.value;
             && e.input.identify(b.publicData) == IdentifierOf(store.devices, b.publicData)
             && link in DtlsSessions.Run(DtlsSessions.Step(s, e), traffic).table && link.session == b.session
             && Change.Delete(b.identifier) !in changes
    requires forall f :: f in traffic ==> f.spare != link.session
    requires Sound(store.devices) && AdmissibleRun(store, changes)
    ensures DtlsSessions.PublicData(e.input).Some?
    ensures var p := KeyPosition(store.devices, DtlsSessions.PublicData(e.input).value);
            && p < |store.devices|
            && var d := store.devices[p];
               NameValid(true, Run(store, changes).devices, link.identifier, name)
               <==> name == LastName(changes, d.uuid, d.name)
  {
    DtlsSessions.HandshakeGivesIdentity(s, e);
    var key := DtlsSessions.PublicData(e.input).value;
    var p := KeyPosition(store.devices, key);
    var d := store.devices[p];
    DtlsSessions.StepKeepsAuthenticated(s, e);
    DtlsSessions.RunKeepsIdentity(DtlsSessions.Step(s, e), traffic, link.session, d.uuid);
    PositionIs(store.devices, p);
    AcceptedExactlyUnderCurrentName(store, changes, d, name);
  }

  /**
   * For a PSK handshake that is the device whose secret was used. The list is the same for both callbacks of the
   * handshake.
   */
  lemma SessionSpeaksForItsDevice(s: DtlsSessions.State, e: DtlsSessions.Event, traffic: seq<DtlsSessions.Event>,
                                  store: Store, changes: seq<Change>, link: DtlsSessions.Link, name: string)
    requires DtlsSessions.Authenticated(s) && DtlsSessions.Enabled(s, e)
    requires DtlsSessions.EnabledAll(DtlsSessions.Step(s, e), traffic)
    requires e.input.keyExchange == DtlsSessions.PskExchange
    requires e.input.cipher == DtlsSessions.Aes128Ccm8 || e.input.cipher == DtlsSessions.Aes128Cbc
    requires e.input.username.Some? && ZeroFree(e.input.username.value)
    requires Sound(store.devices) && PskKeysComeFirst(store.devices)
    requires PskPosition(store.devices, e.input.username.value) < |store.devices|
    requires e.input.identify(e.input.username.value) == IdentifierOf(store.devices, e.input.username.value)
    requires DtlsSessions.Received(s.table, e.input, e.spare).bound.Some?
    requires link in DtlsSessions.Run(DtlsSessions.Step(s, e), traffic).table
    requires link.session == DtlsSessions.Received(s.table, e.input, e.spare).bound.value.session
    requires forall f :: f in traffic ==> f.spare != link.session
    requires AdmissibleRun(store, changes)
    requires Change.Delete(store.devices[PskPosition(store.devices, e.input.username.value)].uuid) !in changes
    ensures var d := store.devices[PskPosition(store.devices, e.input.username.value)];
            NameValid(true, Run(store, changes).devices, link.identifier, name)
            <==> name == LastName(changes, d.uuid, d.name)
  {
    AgreeExactlyWhenPskKeysComeFirst(store.devices);
    assert LookupsAgree(store.devices, e.input.username.value);
    DtlsSessions.HandshakeGivesIdentity(s, e);
    SessionSpeaksForIdentifiedDevice(s, e, traffic, store, changes, link, name);
  }
}
