/** The REST handlers for devices as functions: status, answer and change for every request, and runs of requests. */
module DeviceRequests {
  import opened Wrappers
  import opened Base64
  import opened Json
  import opened Devices
  import opened DeviceStore
  import opened Credentials

  const JSON_TYPE: string := "application/json"
  const SERVER_KEY: string := "server_key"

  ghost predicate AcceptedNewField(field: Field) {
    && field.value.Text?
    && (EqualIgnoringCase(field.key, MODE) ==> ModeFromString(field.value.text) != Undefined)
  }

  ghost predicate ValidNewEntry(j: Json) {
    && j.Object?
    && (forall f :: f in j.fields ==> AcceptedNewField(f))
    && HasKey(j.fields, MODE) && HasKey(j.fields, NAME)
  }

  function RequestedDevice(devices: seq<Device>, j: Json, e: Entropy): Option<Device>
    requires GoodEntropy(devices, e)
  {
    var name := GetString(j, NAME);
    if name.None? then None else NewDevice(devices, EntryMode(j), name.value, e)
  }

  /** The answer to a POST, with the secret key in it; nothing when a part is refused or cannot be read. */
  function PostAnswer(d: Device, e: Entropy): Option<Json> {
    if d.mode == Undefined || !PassesCheck(d.publicKey) || !PassesCheck(d.secretKey)
       || (d.mode == Cert && e.serverKey.None?) then None
    else
      Some(Object([Field(UUID, Text(d.uuid)), Field(NAME, Text(d.name)), Field(MODE, Text(ModeToString(d.mode))),
                   Field(PUBLIC_KEY, Text(Encode(d.publicKey)))]
                  + (if d.mode == Cert then [Field(SERVER_KEY, Text(e.serverKey.value))] else [])
                  + [Field(SECRET_KEY, Text(Encode(d.secretKey)))]))
  }

  /** The keys are encoded in this order until something is refused; none that is encoded spills. */
  predicate AnswerStaysInside(d: Device, e: Entropy) {
    d.mode != Undefined ==>
      && !Spills(d.publicKey)
      && (PassesCheck(d.publicKey) && !(d.mode == Cert && e.serverKey.None?) ==> !Spills(d.secretKey))
  }

  datatype Request =
    | PostDevice(contentType: Option<string>, body: Option<Json>, entropy: Entropy)
    | PutDevice(contentType: Option<string>, id: Option<string>, body: Option<Json>)
    | DeleteDevice(id: Option<string>)

  /** `intact`: the request keeps to the buffers of the answer. */
  datatype Outcome = Outcome(status: int, change: Option<Change>, answer: Option<Json>, intact: bool)

  function NewOutcome(devices: seq<Device>, j: Json, e: Entropy): Outcome
    requires GoodEntropy(devices, e)
  {
    var d := RequestedDevice(devices, j, e);
    if d.None? then Outcome(500, None, None, true)
    else
      var answer, intact := PostAnswer(d.value, e), AnswerStaysInside(d.value, e);
      if answer.None? then Outcome(500, None, None, intact)
      else Outcome(201, Some(Post(Kept(d.value))), answer, intact)
  }

  ghost function PostOutcome(devices: seq<Device>, contentType: Option<string>, body: Option<Json>, e: Entropy): Outcome
    requires GoodEntropy(devices, e)
  {
    if contentType != Some(JSON_TYPE) then Outcome(415, None, None, true)
    else if body.None? || !ValidNewEntry(body.value) then Outcome(400, None, None, true)
    else NewOutcome(devices, body.value, e)
  }

  function PutOutcome(devices: seq<Device>, contentType: Option<string>, id: Option<string>, body: Option<Json>)
    : Outcome
  {
    if contentType != Some(JSON_TYPE) then Outcome(415, None, None, true)
    else if id.None? || body.None? then Outcome(400, None, None, true)
    else
      var name := GetString(body.value, NAME);
      if name.None? || Position(devices, id.value) == |devices| then Outcome(400, None, None, true)
      else Outcome(201, Some(Put(id.value, name.value)), None, true)
  }

  function DeleteOutcome(devices: seq<Device>, id: Option<string>): Outcome {
    if id.None? then Outcome(400, None, None, true)
    else if Position(devices, id.value) == |devices| then Outcome(404, None, None, true)
    else Outcome(200, Some(Delete(id.value)), None, true)
  }

  function After(s: Store, outcome: Outcome): Store {
    var t := if outcome.change.Some? then Step(s, outcome.change.value) else s;
    t.(intact := t.intact && outcome.intact)
  }

  ghost predicate GoodRequest(s: Store, request: Request) {
    request.PostDevice? ==> GoodEntropy(s.devices, request.entropy)
  }

  ghost function OutcomeOf(s: Store, request: Request): Outcome
    requires GoodRequest(s, request)
  {
    match request
    case PostDevice(contentType, body, entropy) => PostOutcome(s.devices, contentType, body, entropy)
    case PutDevice(contentType, id, body) => PutOutcome(s.devices, contentType, id, body)
    case DeleteDevice(id) => DeleteOutcome(s.devices, id)
  }

  ghost function Served(s: Store, request: Request): Store
    requires GoodRequest(s, request)
  {
    After(s, OutcomeOf(s, request))
  }

  ghost predicate GoodRequests(s: Store, requests: seq<Request>)
    decreases |requests|
  {
    requests == [] || (GoodRequest(s, requests[0]) && GoodRequests(Served(s, requests[0]), requests[1..]))
  }

  ghost function ServedAll(s: Store, requests: seq<Request>): Store
    requires GoodRequests(s, requests)
    decreases |requests|
  {
    if requests == [] then s else ServedAll(Served(s, requests[0]), requests[1..])
  }

  // ---- What a POST puts in the list ----------------------------------------------------------------------

  /** A device answered with 201 is admissible, and when its answer kept to its buffer, its fields fit the save. */
  lemma PostedDevice(devices: seq<Device>, contentType: Option<string>, body: Option<Json>, e: Entropy)
    requires GoodEntropy(devices, e)
    requires PostOutcome(devices, contentType, body, e).status == 201
    ensures var outcome := PostOutcome(devices, contentType, body, e);
            && outcome.change.Some? && outcome.change.value.Post? && Admissible(devices, outcome.change.value)
            && (outcome.intact ==> Fits(outcome.change.value.device))
  {
    var d := RequestedDevice(devices, body.value, e).value;
    if d.mode == Cert {
      FitsExactly(d.serial);
      assert forall i :: 0 <= i < |devices| ==> devices[i].serial != d.serial;
    }
    FitsExactly([]);
  }

  /** The answer, key by key. */
  lemma AnswerFields(d: Device, e: Entropy)
    requires PostAnswer(d, e).Some?
    ensures var answer := PostAnswer(d, e).value;
            && GetString(answer, "uuid") == Some(d.uuid) && GetString(answer, "name") == Some(d.name)
            && GetString(answer, "mode")
               == Some(if d.mode == Psk then "psk" else if d.mode == Cert then "cert" else "none")
            && GetString(answer, "public_key") == Some(Encode(d.publicKey))
            && GetString(answer, "secret_key") == Some(Encode(d.secretKey))
  {
    KeysDiffer();
    ServerKeyDiffers();
    var fields := PostAnswer(d, e).value.fields;
    FirstWithKeyAt(fields, 0);
    FirstWithKeyAt(fields, 1);
    FirstWithKeyAt(fields, 2);
    FirstWithKeyAt(fields, 3);
    SecretKeyOfAnswer(d, e);
  }

  lemma SecretKeyOfAnswer(d: Device, e: Entropy)
    requires PostAnswer(d, e).Some?
    ensures GetString(PostAnswer(d, e).value, "secret_key") == Some(Encode(d.secretKey))
  {
    KeysDiffer();
    ServerKeyDiffers();
    var fields := PostAnswer(d, e).value.fields;
    FirstWithKeyAt(fields, |fields| - 1);
  }

  lemma ServerKeyDiffers()
    ensures SERVER_KEY != PUBLIC_KEY && SERVER_KEY != SECRET_KEY && |SERVER_KEY| == 10
  {
    assert SERVER_KEY[2] == 'r' && SECRET_KEY[2] == 'c' && PUBLIC_KEY[2] == 'b';
  }

  /** A certificate comes with that of the server, and the other modes without one. */
  lemma ServerKeyOfAnswer(d: Device, e: Entropy)
    requires PostAnswer(d, e).Some?
    ensures GetString(PostAnswer(d, e).value, "server_key") == if d.mode == Cert then e.serverKey else None
  {
    KeysDiffer();
    ServerKeyDiffers();
    var fields := PostAnswer(d, e).value.fields;
    if d.mode == Cert {
      FirstWithKeyAt(fields, 4);
    } else {
      var i := FirstWithKeyMeans(fields, SERVER_KEY);
    }
  }

  /** The text under the key decodes to the data; the empty text stands for no data. */
  ghost predicate Carries(j: Json, key: string, data: seq<Byte>) {
    && GetString(j, key).Some?
    && var text := GetString(j, key).value;
       if data == [] then text == "" else Decodable(text) && Decode(text) == data
  }

  lemma EncodedIsCarried(j: Json, key: string, data: seq<Byte>)
    requires GetString(j, key) == Some(Encode(data))
    ensures Carries(j, key, data)
  {
    if data == [] {
      EmptyText();
    } else {
      RoundTrip(data);
    }
  }

  /** The client receives exactly the keys that were made; the server keeps the secret of a PSK device only. */
  lemma AnswerHandsOutTheKeys(d: Device, e: Entropy)
    requires PostAnswer(d, e).Some?
    ensures Carries(PostAnswer(d, e).value, "public_key", d.publicKey)
    ensures Carries(PostAnswer(d, e).value, "secret_key", d.secretKey)
    ensures Kept(d) == if d.mode == Cert then d.(secretKey := []) else d
  {
    AnswerFields(d, e);
    EncodedIsCarried(PostAnswer(d, e).value, "public_key", d.publicKey);
    EncodedIsCarried(PostAnswer(d, e).value, "secret_key", d.secretKey);
  }

  /** A POST answered with 201 lists and answers the device that its body asks for. */
  lemma PostMakes(devices: seq<Device>, contentType: Option<string>, body: Option<Json>, e: Entropy)
    requires GoodEntropy(devices, e)
    requires PostOutcome(devices, contentType, body, e).status == 201
    ensures body.Some? && GetString(body.value, "mode").Some? && GetString(body.value, "name").Some?
    ensures var made := NewDevice(devices, EntryMode(body.value), GetString(body.value, "name").value, e);
            && made.Some? && PostAnswer(made.value, e).Some?
            && PostOutcome(devices, contentType, body, e).change == Some(Post(Kept(made.value)))
            && PostOutcome(devices, contentType, body, e).answer == PostAnswer(made.value, e)
  {
  }

  ghost predicate Answers(answer: Json, d: Device, mode: string, publicKey: seq<Byte>, secretKey: seq<Byte>) {
    && GetString(answer, "uuid") == Some(d.uuid) && GetString(answer, "name") == Some(d.name)
    && GetString(answer, "mode") == Some(mode)
    && Carries(answer, "public_key", publicKey) && Carries(answer, "secret_key", secretKey)
  }

  lemma AnswersMade(d: Device, e: Entropy)
    requires PostAnswer(d, e).Some?
    ensures var mode := if d.mode == Psk then "psk" else if d.mode == Cert then "cert" else "none";
            Answers(PostAnswer(d, e).value, d, mode, d.publicKey, d.secretKey)
  {
    AnswerFields(d, e);
    AnswerHandsOutTheKeys(d, e);
  }

  /** What a POST answered with 201 lists, and what it answers. */
  ghost predicate Posted(devices: seq<Device>, contentType: Option<string>, body: Option<Json>, e: Entropy, d: Device,
                         answer: Json)
    requires GoodEntropy(devices, e)
  {
    var outcome := PostOutcome(devices, contentType, body, e);
    outcome.status == 201 && outcome.change == Some(Post(d)) && outcome.answer == Some(answer)
  }

  /** In every mode: the device has the drawn uuid and the name in the body, and a mode text that is known. */
  lemma PostNames(devices: seq<Device>, contentType: Option<string>, body: Option<Json>, e: Entropy, d: Device,
                  answer: Json)
    requires GoodEntropy(devices, e) && Posted(devices, contentType, body, e, d, answer)
    ensures body.Some? && d.uuid == e.uuid && Some(d.name) == GetString(body.value, "name")
    ensures GetString(body.value, "mode").Some? && IsModeText(GetString(body.value, "mode").value)
  {
    PostMakes(devices, contentType, body, e);
  }

  /** The certificate is kept as the public key. Its private key is answered and not kept. */
  lemma PostedCertificate(devices: seq<Device>, contentType: Option<string>, body: Option<Json>, e: Entropy, d: Device,
                          answer: Json)
    requires GoodEntropy(devices, e) && Posted(devices, contentType, body, e, d, answer)
    requires body.Some? && GetString(body.value, "mode").Some?
    requires EqualIgnoringCase(GetString(body.value, "mode").value, "cert")
    ensures e.certificate.Some?
    ensures d == Device(e.uuid, d.name, Cert, e.certificate.value.0, [], FirstFresh(devices, e.draws))
    ensures Answers(answer, d, "cert", e.certificate.value.0, e.certificate.value.1)
    ensures e.serverKey.Some? && GetString(answer, "server_key") == e.serverKey
  {
    PostMakes(devices, contentType, body, e);
    OneMode();
    var made := NewDevice(devices, Cert, GetString(body.value, "name").value, e).value;
    AnswersMade(made, e);
    ServerKeyOfAnswer(made, e);
  }

  /** The identifier is made from its draw. It and the secret are kept and answered. */
  lemma PostedPsk(devices: seq<Device>, contentType: Option<string>, body: Option<Json>, e: Entropy, d: Device,
                  answer: Json)
    requires GoodEntropy(devices, e) && Posted(devices, contentType, body, e, d, answer)
    requires body.Some? && GetString(body.value, "mode").Some?
    requires EqualIgnoringCase(GetString(body.value, "mode").value, "psk")
    ensures d == Device(e.uuid, d.name, Psk, Hex(e.pskId), e.psk, [])
    ensures Answers(answer, d, "psk", d.publicKey, e.psk) && GetString(answer, "server_key") == None
  {
    PostMakes(devices, contentType, body, e);
    OneMode();
    AnswersMade(d, e);
    ServerKeyOfAnswer(d, e);
  }

  /** The identifier has twelve places and is the hexadecimal notation of the draw. */
  lemma PostedIdentifier(e: Entropy, d: Device)
    requires d.publicKey == Hex(e.pskId) && |e.pskId| == 6
    ensures |d.publicKey| == 12
    ensures forall i: nat :: i < 6 ==> SpellsAt(d.publicKey, i, e.pskId[i])
  {
    HexSpells(e.pskId, d.publicKey);
  }

  /** Nothing is made, kept or answered but the name and the uuid. */
  lemma PostedWithoutCredentials(devices: seq<Device>, contentType: Option<string>, body: Option<Json>, e: Entropy,
                                 d: Device, answer: Json)
    requires GoodEntropy(devices, e) && Posted(devices, contentType, body, e, d, answer)
    requires body.Some? && GetString(body.value, "mode").Some?
    requires EqualIgnoringCase(GetString(body.value, "mode").value, "none")
    ensures d == Device(e.uuid, d.name, NoCredentials, [], [], [])
    ensures Answers(answer, d, "none", [], []) && GetString(answer, "server_key") == None
  {
    PostMakes(devices, contentType, body, e);
    OneMode();
    AnswersMade(d, e);
    ServerKeyOfAnswer(d, e);
  }

  /** The certificate of the answer, or its private key after it, is encoded and fills its buffer. */
  predicate CertificateFills(e: Entropy) {
    && e.certificate.Some?
    && var sizes := (|e.certificate.value.0|, |e.certificate.value.1|);
       766 <= sizes.0 <= 768 || (sizes.0 < 766 && e.serverKey.Some? && 766 <= sizes.1 <= 768)
  }

  /** Why a body is answered with 400. */
  ghost predicate BadBody(body: Option<Json>) {
    || body.None? || !body.value.Object?
    || (exists f :: f in body.value.fields && !f.value.Text?)
    || (exists f :: f in body.value.fields && EqualIgnoringCase(f.key, "mode")
                    && f.value.Text? && !IsModeText(f.value.text))
    || (forall f :: f in body.value.fields ==> !EqualIgnoringCase(f.key, "mode"))
    || (forall f :: f in body.value.fields ==> !EqualIgnoringCase(f.key, "name"))
  }

  lemma BadBodyExactly(body: Option<Json>)
    ensures BadBody(body) <==> body.None? || !ValidNewEntry(body.value)
  {
  }

  lemma ModeOfValid(j: Json)
    requires ValidNewEntry(j) && Get(j, "mode").Some?
    ensures GetString(j, "mode").Some? && IsModeText(GetString(j, "mode").value)
  {
    var i := FirstWithKeyMeans(j.fields, "mode");
    assert j.fields[i] in j.fields && EqualIgnoringCase(j.fields[i].key, "mode");
  }

  lemma CertificateStatus(devices: seq<Device>, j: Json, e: Entropy)
    requires GoodEntropy(devices, e) && EntryMode(j) == Cert && GetString(j, NAME).Some?
    ensures var outcome := NewOutcome(devices, j, e);
            && (outcome.status == 201 <==>
                 && e.certificate.Some? && e.serverKey.Some?
                 && |e.certificate.value.0| <= 768 && |e.certificate.value.1| <= 768)
            && (outcome.status != 201 ==> outcome.status == 500 && outcome.change == None && outcome.answer == None)
            && (outcome.intact <==> !CertificateFills(e))
  {
    if e.certificate.Some? {
      FitsExactly(e.certificate.value.0);
      FitsExactly(e.certificate.value.1);
    }
  }

  lemma OtherStatus(devices: seq<Device>, j: Json, e: Entropy)
    requires GoodEntropy(devices, e) && GetString(j, NAME).Some?
    requires EntryMode(j) == Psk || EntryMode(j) == NoCredentials
    ensures NewOutcome(devices, j, e).status == 201 && NewOutcome(devices, j, e).intact
  {
    FitsExactly(Hex(e.pskId));
    FitsExactly(e.psk);
    FitsExactly([]);
  }

  /** The exact condition of each status of a POST; nothing is listed or answered with another than 201. */
  lemma PostStatus(devices: seq<Device>, contentType: Option<string>, body: Option<Json>, e: Entropy)
    requires GoodEntropy(devices, e)
    ensures var outcome := PostOutcome(devices, contentType, body, e);
            if contentType != Some("application/json") then outcome == Outcome(415, None, None, true)
            else if BadBody(body) then outcome == Outcome(400, None, None, true)
            else if GetString(body.value, "mode").None? || GetString(body.value, "name").None?
            then outcome == Outcome(500, None, None, true)
            else if EqualIgnoringCase(GetString(body.value, "mode").value, "cert") then
              && (outcome.status == 201 <==>
                   && e.certificate.Some? && e.serverKey.Some?
                   && |e.certificate.value.0| <= 768 && |e.certificate.value.1| <= 768)
              && (outcome.status != 201 ==>
                   outcome.status == 500 && outcome.change == None && outcome.answer == None)
              && (outcome.intact <==> !CertificateFills(e))
            else outcome.status == 201 && outcome.intact
  {
    BadBodyExactly(body);
    OneMode();
    if !BadBody(body) && GetString(body.value, "mode").Some? && GetString(body.value, "name").Some? {
      ModeOfValid(body.value);
      if EqualIgnoringCase(GetString(body.value, "mode").value, "cert") {
        CertificateStatus(devices, body.value, e);
      } else {
        OtherStatus(devices, body.value, e);
      }
    }
  }

  // ---- What a request does to the list -------------------------------------------------------------------

  /** Position p holds the first device with the uuid. */
  ghost predicate IsFirst(devices: seq<Device>, uuid: string, p: nat) {
    p < |devices| && devices[p].uuid == uuid && forall i :: 0 <= i < p ==> devices[i].uuid != uuid
  }

  /** A POST answered with 201 puts its device in front, and another leaves list and file as they are. */
  lemma PostMeans(s: Store, request: Request)
    requires request.PostDevice? && GoodRequest(s, request)
    ensures var outcome, after := OutcomeOf(s, request), Served(s, request);
            if outcome.status == 201 then
              && outcome.change.Some? && outcome.change.value.Post?
              && after.devices == [outcome.change.value.device] + s.devices
              && Lookup(s.devices, request.entropy.uuid) == None
              && Lookup(after.devices, request.entropy.uuid) == Some(outcome.change.value.device)
              && forall uuid :: uuid != request.entropy.uuid ==>
                   Lookup(after.devices, uuid) == Lookup(s.devices, uuid)
            else after == s.(intact := s.intact && outcome.intact)
  {
    var outcome := OutcomeOf(s, request);
    if outcome.status == 201 {
      PostMakes(s.devices, request.contentType, request.body, request.entropy);
      PositionIsNone(s.devices, request.entropy.uuid);
      var d := outcome.change.value.device;
      assert d.uuid == request.entropy.uuid;
      forall uuid
        ensures Lookup([d] + s.devices, uuid) == if uuid == d.uuid then Some(d) else Lookup(s.devices, uuid)
      {
        LookupAfterPost(s.devices, d, uuid);
      }
    }
  }

  /** A PUT gives the first device with the id the name in the body, or answers 415 or 400 and changes nothing. */
  lemma PutMeans(s: Store, contentType: Option<string>, id: Option<string>, body: Option<Json>)
    ensures var request := PutDevice(contentType, id, body);
            var status, after := OutcomeOf(s, request).status, Served(s, request);
            if contentType != Some("application/json") then status == 415 && after == s
            else if id.None? || body.None? || GetString(body.value, "name").None?
                    || (forall d :: d in s.devices ==> d.uuid != id.value) then status == 400 && after == s
            else
              && var name := GetString(body.value, "name").value;
                 && status == 201
                 && (exists p: nat :: IsFirst(s.devices, id.value, p)
                                 && after.devices == s.devices[p := s.devices[p].(name := name)])
                 && Lookup(s.devices, id.value).Some?
                 && Lookup(after.devices, id.value) == Some(Lookup(s.devices, id.value).value.(name := name))
                 && forall uuid :: uuid != id.value ==> Lookup(after.devices, uuid) == Lookup(s.devices, uuid)
  {
    var outcome := PutOutcome(s.devices, contentType, id, body);
    if outcome.change.Some? {
      var p := Position(s.devices, id.value);
      assert IsFirst(s.devices, id.value, p) && s.devices[p] in s.devices;
      RenamedIsFound(s.devices, id.value, outcome.change.value.name);
      forall uuid | uuid != id.value
        ensures Lookup(Changed(s.devices, outcome.change.value), uuid) == Lookup(s.devices, uuid)
      {
        OthersStay(s.devices, outcome.change.value, uuid);
      }
    } else if id.Some? {
      NotListed(s.devices, id.value);
    }
  }

  lemma NotListed(devices: seq<Device>, uuid: string)
    ensures Position(devices, uuid) == |devices| <==> forall d :: d in devices ==> d.uuid != uuid
  {
    if Position(devices, uuid) < |devices| {
      assert devices[Position(devices, uuid)] in devices;
    }
  }

  /** A DELETE takes the first device with the id out of the list, or answers 400 or 404 and changes nothing. */
  lemma DeleteMeans(s: Store, id: Option<string>)
    ensures var status, after := OutcomeOf(s, DeleteDevice(id)).status, Served(s, DeleteDevice(id));
            if id.None? then status == 400 && after == s
            else if forall d :: d in s.devices ==> d.uuid != id.value then status == 404 && after == s
            else
              && status == 200
              && (exists p: nat :: IsFirst(s.devices, id.value, p)
                              && after.devices == s.devices[..p] + s.devices[p + 1..])
              && (forall uuid :: uuid != id.value ==> Lookup(after.devices, uuid) == Lookup(s.devices, uuid))
              && (DistinctUuids(s.devices) ==> Lookup(after.devices, id.value) == None)
  {
    if id.Some? {
      NotListed(s.devices, id.value);
      var p := Position(s.devices, id.value);
      if p < |s.devices| {
        assert IsFirst(s.devices, id.value, p);
        forall uuid | uuid != id.value
          ensures Lookup(Changed(s.devices, Delete(id.value)), uuid) == Lookup(s.devices, uuid)
        {
          OthersStay(s.devices, Delete(id.value), uuid);
        }
        if DistinctUuids(s.devices) {
          LookupAfterDelete(s.devices, p, id.value);
        }
      }
    }
  }

  // ---- Runs of requests ----------------------------------------------------------------------------------

  /** The file is up to date as long as the program has kept to its buffers. */
  ghost predicate UpToDate(s: Store) {
    AllWellFormed(s.devices) && (s.intact ==> AllFit(s.devices) && Persistent(s))
  }

  /** No certificate or key of this request fills a buffer. */
  predicate NothingSpills(request: Request) {
    request.PostDevice? && request.entropy.certificate.Some? ==>
      !Spills(request.entropy.certificate.value.0) && !Spills(request.entropy.certificate.value.1)
  }

  lemma ServedKeeps(s: Store, request: Request)
    requires UpToDate(s) && GoodRequest(s, request)
    ensures UpToDate(Served(s, request))
    ensures s.intact && NothingSpills(request) ==> Served(s, request).intact
    ensures Sound(s.devices) ==> Sound(Served(s, request).devices)
  {
    var outcome := OutcomeOf(s, request);
    if request.PostDevice? {
      SmallKeysStayInside(s.devices, request);
    }
    if outcome.change.Some? {
      if request.PostDevice? {
        PostedDevice(s.devices, request.contentType, request.body, request.entropy);
      }
      StepKeepsWellFormed(s, outcome.change.value);
      if Sound(s.devices) {
        StepKeepsSound(s, outcome.change.value);
      }
      if s.intact && outcome.intact {
        StepKeepsPersistent(s, outcome.change.value);
      }
    }
  }

  lemma SmallKeysStayInside(devices: seq<Device>, request: Request)
    requires request.PostDevice? && GoodEntropy(devices, request.entropy)
    ensures NothingSpills(request) ==> PostOutcome(devices, request.contentType, request.body, request.entropy).intact
  {
    FitsExactly(Hex(request.entropy.pskId));
    FitsExactly(request.entropy.psk);
    FitsExactly([]);
  }

  /**
   * Load a file, serve any requests, restart: the devices come back, in the same or in the reversed order, as
   * long as no text filled a buffer. Uuids and serial numbers stay distinct when they were.
   */
  lemma {:induction false} RequestsThenRestart(s: Store, requests: seq<Request>)
    requires UpToDate(s) && GoodRequests(s, requests)
    ensures var after := ServedAll(s, requests);
            && (after.intact ==> ReloadsAs(after, after.devices))
            && (s.intact && (forall r :: r in requests ==> NothingSpills(r)) ==> after.intact)
            && (Sound(s.devices) ==> Sound(after.devices))
    decreases |requests|
  {
    if requests != [] {
      ServedKeeps(s, requests[0]);
      RequestsThenRestart(Served(s, requests[0]), requests[1..]);
    }
  }
}
