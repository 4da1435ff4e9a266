/** The device list in memory, the handlers that change it in place, and its file. */
module DeviceDatabase {
  import opened Wrappers
  import opened Base64
  import opened Json
  import opened Devices
  import opened DeviceStore
  import opened Credentials
  import opened LinkedList
  import opened DeviceRequests
  import Base64Codec
  import DatabaseEntries

  class Entry {
    var uuid: string
    var name: string
    var mode: Mode
    var publicKey: seq<Byte>
    var secretKey: seq<Byte>
    var serial: seq<Byte>

    /** All fields cleared. */
    constructor ()
      ensures Value() == Device("", "", Undefined, [], [], [])
    {
      uuid, name, mode, publicKey, secretKey, serial := "", "", Undefined, [], [], [];
    }

    ghost function Value(): Device
      reads this
    {
      Device(uuid, name, mode, publicKey, secretKey, serial)
    }
  }

  ghost function DevicesOf(entries: seq<Entry>): (devices: seq<Device>)
    reads entries
    ensures |devices| == |entries|
    ensures forall i :: 0 <= i < |entries| ==> devices[i] == entries[i].Value()
  {
    if entries == [] then [] else [entries[0].Value()] + DevicesOf(entries[1..])
  }

  lemma DevicesOfIs(entries: seq<Entry>, devices: seq<Device>)
    requires |devices| == |entries| && forall i :: 0 <= i < |entries| ==> devices[i] == entries[i].Value()
    ensures DevicesOf(entries) == devices
  {
  }

  lemma DevicesOfCut(entries: seq<Entry>, k: nat)
    requires k < |entries|
    ensures DevicesOf(Cut(entries, k)) == Cut(DevicesOf(entries), k)
  {
    DevicesOfIs(Cut(entries, k), Cut(DevicesOf(entries), k));
  }

  lemma DevicesOfAdded(entry: Entry, entries: seq<Entry>)
    ensures DevicesOf([entry] + entries) == [entry.Value()] + DevicesOf(entries)
  {
    DevicesOfIs([entry] + entries, [entry.Value()] + DevicesOf(entries));
  }

  /** Entries that were not touched keep their values. */
  twostate lemma Untouched(entries: seq<Entry>)
    requires forall e :: e in entries ==> unchanged(e)
    ensures DevicesOf(entries) == old(DevicesOf(entries))
  {
    forall i | 0 <= i < |entries|
      ensures entries[i].Value() == old(entries[i].Value())
    {
      assert entries[i] in entries;
    }
    DevicesOfIs(entries, old(DevicesOf(entries)));
  }

  /** Only one of the entries was touched. */
  lemma TouchedAt(entries: seq<Entry>, p: nat, d: Device, before: seq<Device>)
    requires p < |entries| == |before| && entries[p].Value() == d
    requires forall i :: 0 <= i < |entries| && i != p ==> entries[i].Value() == before[i]
    ensures DevicesOf(entries) == before[p := d]
  {
    DevicesOfIs(entries, before[p := d]);
  }

  /** A new entry from an element of the file; null when something it needs is missing. */
  method CreateEntry(j: Json) returns (entry: Entry?)
    ensures entry == null <==> CreatedDevice(j).None?
    ensures entry != null ==> fresh(entry) && entry.Value() == CreatedDevice(j).value
  {
    entry := new Entry();
    entry.mode := EntryMode(j);
    if entry.mode == Undefined {
      return null;
    }
    var uuid, name := GetString(j, UUID), GetString(j, NAME);
    if uuid.None? || name.None? {
      return null;
    }
    entry.uuid, entry.name := uuid.value, name.value;
    if entry.mode == Psk {
      var publicKey, left := DatabaseEntries.BinaryFromJson(j, PUBLIC_KEY);
      var secretKey;
      secretKey, left := DatabaseEntries.BinaryFromJson(j, SECRET_KEY);
      if publicKey.None? || secretKey.None? {
        return null;
      }
      entry.publicKey, entry.secretKey := publicKey.value, secretKey.value;
    } else if entry.mode == Cert {
      var publicKey, left := DatabaseEntries.BinaryFromJson(j, PUBLIC_KEY);
      var serial;
      serial, left := DatabaseEntries.BinaryFromJson(j, SERIAL);
      if publicKey.None? || serial.None? {
        return null;
      }
      entry.publicKey, entry.serial := publicKey.value, serial.value;
    }
  }

  /** What stands at the configured path. */
  datatype FileContent = Missing | Unparsable | Parsed(root: Json)

  class Database {
    var list: LinkedList<Entry>
    var file: Option<seq<Json>>
    const configured: bool
    ghost var intact: bool  // the encoder has kept to its buffers

    ghost predicate Valid()
      reads this, list, list.Repr, list.Contents
    {
      && list.Valid()
      && NoDuplicates(list.Contents)
      && (forall e :: e in list.Contents ==> e as object !in list.Repr)
      && this as object !in list.Repr
    }

    ghost function View(): Store
      reads this, list, list.Contents
    {
      Store(DevicesOf(list.Contents), file, configured, intact)
    }

    /**
     * Loads the file. When it holds something other than an array, the source frees the list that it has already
     * stored, and nothing is said about it.
     */
    constructor Load(configured: bool, content: FileContent)
      ensures this.configured == configured && intact
      ensures !(configured && content.Parsed? && !content.root.Array?) ==>
                && Valid() && fresh(list.Repr) && (forall e :: e in list.Contents ==> fresh(e))
                && View() == (if configured && content.Parsed?
                              then Store(Loaded(content.root.elements), Some(content.root.elements), configured, true)
                              else Store([], None, configured, true))
    {
      this.configured := configured;
      list := new LinkedList<Entry>();
      file := None;
      intact := true;
      new;
      if configured && content.Parsed? {
        if content.root.Array? {
          file := Some(content.root.elements);
          LoadElements(content.root.elements);
        } else {
          list.Delete();
        }
      }
    }

    method LoadElements(elements: seq<Json>)
      requires Valid() && list.Contents == []
      modifies list.Repr
      ensures Valid() && fresh(list.Repr - old(list.Repr))
      ensures forall e :: e in list.Contents ==> fresh(e)
      ensures DevicesOf(list.Contents) == Loaded(elements)
    {
      for i := 0 to |elements|
        invariant Valid() && fresh(list.Repr - old(list.Repr))
        invariant forall e :: e in list.Contents ==> fresh(e)
        invariant DevicesOf(list.Contents) == Loaded(elements[..i])
      {
        LoadedOneMore(elements, i);
        LoadElement(elements[i]);
      }
      assert elements[..|elements|] == elements;
    }

    /** One turn of the loop: an element that fails leaves the list alone. */
    method LoadElement(element: Json)
      requires Valid()
      modifies list.Repr
      ensures Valid() && fresh(list.Repr - old(list.Repr))
      ensures forall e :: e in list.Contents && e !in old(list.Contents) ==> fresh(e)
      ensures DevicesOf(list.Contents) == LoadedFrom(element) + old(DevicesOf(list.Contents))
    {
      var entry := TryCreate(element);
      if entry != null {
        AddEntry(entry);
      }
    }

    method AddEntry(entry: Entry)
      requires Valid() && entry !in list.Contents && entry as object !in list.Repr
      modifies list.Repr
      ensures Valid() && fresh(list.Repr - old(list.Repr))
      ensures list.Contents == [entry] + old(list.Contents)
      ensures DevicesOf(list.Contents) == [entry.Value()] + old(DevicesOf(list.Contents))
    {
      list.Add(entry);
      Untouched(old(list.Contents));
      DevicesOfAdded(entry, old(list.Contents));
    }

    /** rest_devices_save_list_to_file: a failure leaves the file alone. */
    method SaveToFile() returns (ret: int)
      requires Valid()
      modifies this`file, this`intact
      ensures ret == if Saved(old(DevicesOf(list.Contents))).Some? then 0 else -1
      ensures intact == (old(intact) && SaveStaysInside(old(DevicesOf(list.Contents))))
      ensures SaveStaysInside(old(DevicesOf(list.Contents))) ==>
                file == if ret == 0 then Saved(old(DevicesOf(list.Contents))) else old(file)
    {
      var elements, inside;
      ret, elements, inside := ToJsonArray(list, DevicesOf(list.Contents));
      intact := intact && inside;
      if ret == 0 {
        file := Some(elements);
      }
    }

    /** rest_devices_update_list: the name is replaced in the entry itself. */
    method Rename(id: string, name: string) returns (ret: int)
      requires Valid()
      modifies list.Contents
      ensures Valid() && list.Contents == old(list.Contents)
      ensures ret == if Effective(old(DevicesOf(list.Contents)), Change.Put(id, name)) then 0 else -1
      ensures DevicesOf(list.Contents) == if ret == 0 then Changed(old(DevicesOf(list.Contents)), Change.Put(id, name))
                                          else old(DevicesOf(list.Contents))
    {
      ghost var devices := DevicesOf(list.Contents);
      var entry, p := FindByUuid(list, devices, id);
      if entry == null {
        return -1;
      }
      SetName(entry, name, p, devices);
      ret := 0;
    }

    method SetName(entry: Entry, name: string, ghost p: nat, ghost devices: seq<Device>)
      requires Valid() && devices == DevicesOf(list.Contents) && p < |list.Contents| && list.Contents[p] == entry
      modifies entry
      ensures Valid() && DevicesOf(list.Contents) == devices[p := devices[p].(name := name)]
    {
      entry.name := name;
      assert Valid();
      forall i | 0 <= i < |devices| && i != p
        ensures list.Contents[i].Value() == devices[i]
      {
        assert list.Contents[i] != entry;
      }
      TouchedAt(list.Contents, p, devices[p].(name := name), devices);
    }

    /** rest_devices_remove_list: unlinks the entry by reference. */
    method RemoveDevice(id: string) returns (ret: int)
      requires Valid()
      modifies list.Repr
      ensures Valid() && list.Repr <= old(list.Repr)
      ensures forall e :: e in list.Contents ==> e in old(list.Contents)
      ensures ret == if Effective(old(DevicesOf(list.Contents)), Change.Delete(id)) then 0 else -1
      ensures DevicesOf(list.Contents) == if ret == 0 then Changed(old(DevicesOf(list.Contents)), Change.Delete(id))
                                          else old(DevicesOf(list.Contents))
    {
      ghost var devices := DevicesOf(list.Contents);
      var entry, p := FindByUuid(list, devices, id);
      if entry == null {
        return -1;
      }
      RemoveEntry(entry, p);
      ret := 0;
    }

    method RemoveEntry(entry: Entry, ghost p: nat)
      requires Valid() && p < |list.Contents| && list.Contents[p] == entry
      modifies list.Repr
      ensures Valid() && list.Repr <= old(list.Repr)
      ensures list.Contents == Cut(old(list.Contents), p)
      ensures DevicesOf(list.Contents) == Cut(old(DevicesOf(list.Contents)), p)
    {
      ghost var before := list.Contents;
      ghost var k := list.Remove(entry);
      assert k == p;
      CutNoDuplicates(before, p);
      Untouched(before);
      DevicesOfCut(before, p);
      assert forall e :: e in list.Contents ==> e in before;
    }

    // ---- The handlers --------------------------------------------------------------------------------------

    method Post(contentType: Option<string>, body: Option<Json>, e: Entropy) returns (status: int, answer: Option<Json>)
      requires Valid() && GoodEntropy(DevicesOf(list.Contents), e)
      modifies this`file, this`intact, list.Repr
      ensures Valid()
      ensures var outcome := PostOutcome(old(View().devices), contentType, body, e);
              && status == outcome.status && (outcome.intact ==> answer == outcome.answer)
              && Agrees(View(), After(old(View()), outcome))
    {
      if contentType != Some(JSON_TYPE) {
        return 415, None;
      }
      if body.None? {
        return 400, None;
      }
      var ret := DatabaseEntries.ValidateNewEntry(body.value);
      if ret != 0 {
        return 400, None;
      }
      status, answer := PostNew(body.value, e);
    }

    /** A valid body: the entry, its answer, and then the list and the file. */
    method PostNew(j: Json, e: Entropy) returns (status: int, answer: Option<Json>)
      requires Valid() && GoodEntropy(DevicesOf(list.Contents), e)
      modifies this`file, this`intact, list.Repr
      ensures Valid()
      ensures var outcome := NewOutcome(old(View().devices), j, e);
              && status == outcome.status && (outcome.intact ==> answer == outcome.answer)
              && Agrees(View(), After(old(View()), outcome))
    {
      var entry;
      entry, answer := Prepare(j, e);
      if entry == null {
        return 500, None;
      }
      AddAndSave(entry);
      status := 201;
    }

    /** The entry and its answer; null when the one or the other cannot be made. */
    method Prepare(j: Json, e: Entropy) returns (entry: Entry?, answer: Option<Json>)
      requires Valid() && GoodEntropy(DevicesOf(list.Contents), e)
      modifies this`intact
      ensures Valid()
      ensures var outcome := NewOutcome(old(View().devices), j, e);
              && View() == old(View()).(intact := old(intact) && outcome.intact)
              && (entry == null <==> outcome.status == 500) && (outcome.intact ==> answer == outcome.answer)
              && (entry != null ==>
                   && entry !in list.Contents && entry as object !in list.Repr
                   && outcome.change == Some(Change.Post(entry.Value())) && outcome.status == 201)
    {
      ghost var devices := DevicesOf(list.Contents);
      var inside;
      entry, answer, inside := MakeEntry(j, list, devices, e);
      intact := intact && inside;
      assert Valid();
      Untouched(list.Contents);
    }

    method Put(contentType: Option<string>, id: Option<string>, body: Option<Json>) returns (status: int)
      requires Valid()
      modifies this`file, this`intact, list.Contents
      ensures Valid()
      ensures var outcome := PutOutcome(old(View().devices), contentType, id, body);
              status == outcome.status && Agrees(View(), After(old(View()), outcome))
    {
      if contentType != Some(JSON_TYPE) {
        return 415;
      }
      if id.None? || body.None? || !body.value.Object? {
        return 400;
      }
      var name := GetString(body.value, NAME);
      if name.None? {
        return 400;
      }
      ghost var before := View();
      var ret := Rename(id.value, name.value);
      if ret != 0 {
        return 400;
      }
      SaveChange(before, Change.Put(id.value, name.value));
      status := 201;
    }

    method Delete(id: Option<string>) returns (status: int)
      requires Valid()
      modifies this`file, this`intact, list.Repr
      ensures Valid()
      ensures var outcome := DeleteOutcome(old(View().devices), id);
              status == outcome.status && Agrees(View(), After(old(View()), outcome))
    {
      if id.None? {
        return 400;
      }
      ghost var before := View();
      var ret := RemoveDevice(id.value);
      if ret != 0 {
        return 404;
      }
      SaveChange(before, Change.Delete(id.value));
      status := 200;
    }

    method AddAndSave(entry: Entry)
      requires Valid() && entry !in list.Contents && entry as object !in list.Repr
      modifies this`file, this`intact, list.Repr
      ensures Valid()
      ensures Agrees(View(), Step(old(View()), Change.Post(old(entry.Value()))))
    {
      ghost var before, d := View(), entry.Value();
      AddEntry(entry);
      SaveChange(before, Change.Post(d));
    }

    /** Saves after a change, when a file is configured; a failure is only logged. */
    method SaveChange(ghost before: Store, ghost change: Change)
      requires Valid()
      requires Effective(before.devices, change) && DevicesOf(list.Contents) == Changed(before.devices, change)
      requires file == before.file && configured == before.configured && intact == before.intact
      modifies this`file, this`intact
      ensures Valid() && Agrees(View(), Step(before, change))
    {
      if configured {
        var ret := SaveToFile();
      }
    }
  }

  // ---- New devices ---------------------------------------------------------------------------------------

  method FindExistingSerial(serial: seq<Byte>, list: LinkedList<Entry>, ghost devices: seq<Device>) returns (ret: int)
    requires list.Valid() && devices == DevicesOf(list.Contents)
    ensures ret == if SerialTaken(devices, serial) then -1 else 0
  {
    var node := list.head;
    ghost var i := 0;
    while node != null
      invariant i <= |devices| && node == list.At(i)
      invariant forall k :: 0 <= k < i ==> devices[k].serial != serial
      decreases |devices| - i
    {
      assert node.data.Value() == devices[i];
      if node.data.serial == serial {
        return -1;
      }
      node := node.next;
      i := i + 1;
    }
    ret := 0;
  }

  /** The draw, made positive. */
  method GenerateSerial(draw: seq<Byte>) returns (serial: seq<Byte>)
    requires |draw| == SERIAL_LENGTH
    ensures serial == Positive(draw)
  {
    var buffer := new Byte[SERIAL_LENGTH](i requires 0 <= i < SERIAL_LENGTH => draw[i]);
    if buffer[0] >> 7 == 1 {
      buffer[0] := buffer[0] & 0x7f;
    }
    TopBitClear(draw[0]);
    serial := buffer[..];
  }

  lemma TopBitClear(b: Byte)
    ensures b >> 7 != 1 ==> b & 0x7f == b
  {
  }

  /** One turn: a draw, made positive, and whether it is in the list. */
  method DrawSerial(list: LinkedList<Entry>, ghost devices: seq<Device>, draw: seq<Byte>)
    returns (serial: seq<Byte>, taken: bool)
    requires list.Valid() && devices == DevicesOf(list.Contents)
    requires |draw| == SERIAL_LENGTH
    ensures serial == Positive(draw) && taken == SerialTaken(devices, Positive(draw))
  {
    serial := GenerateSerial(draw);
    var ret := FindExistingSerial(serial, list, devices);
    taken := ret != 0;
  }

  /** Draws until the serial number is not in the list. */
  method NewSerial(list: LinkedList<Entry>, ghost devices: seq<Device>, draws: seq<seq<Byte>>)
    returns (serial: seq<Byte>)
    requires list.Valid() && devices == DevicesOf(list.Contents)
    requires SerialDraws(draws) && SomeDrawIsFresh(devices, draws)
    ensures serial == FirstFresh(devices, draws)
  {
    ghost var first := FreshIndex(devices, draws);
    var taken;
    serial, taken := DrawSerial(list, devices, draws[0]);
    var k := 0;
    while taken
      invariant 0 <= k <= first
      invariant serial == Positive(draws[k]) && taken == SerialTaken(devices, Positive(draws[k]))
      decreases first - k
    {
      k := k + 1;
      serial, taken := DrawSerial(list, devices, draws[k]);
    }
    FreshIndexIs(devices, draws, k);
  }

  /** The identifier is written digit by digit into a buffer of twice the length. */
  method NewPskId(binary: seq<Byte>) returns (id: seq<Byte>)
    ensures id == Hex(binary)
  {
    var key := new Byte[2 * |binary|](_ => 0);
    for i := 0 to |binary|
      invariant forall j :: 0 <= j < 2 * i ==> key[j] == Hex(binary)[j]
    {
      key[i * 2] := HexDigit((binary[i] >> 4) & 0x0f);
      key[i * 2 + 1] := HexDigit(binary[i] & 0x0f);
    }
    id := key[..];
  }

  method CreateNewEntry(j: Json, list: LinkedList<Entry>, ghost devices: seq<Device>, e: Entropy)
    returns (entry: Entry?)
    requires list.Valid() && devices == DevicesOf(list.Contents) && GoodEntropy(devices, e)
    ensures entry == null <==> RequestedDevice(devices, j, e).None?
    ensures entry != null ==> fresh(entry) && entry.Value() == RequestedDevice(devices, j, e).value
  {
    var mode, name := EntryMode(j), GetString(j, NAME);
    if mode == Undefined || name.None? {
      return null;
    }
    var ret, publicKey, secretKey, serial := NewCredentials(mode, name.value, list, devices, e);
    if ret != 0 {
      return null;
    }
    entry := new Entry();
    entry.mode, entry.name, entry.uuid := mode, name.value, e.uuid;
    entry.publicKey, entry.secretKey, entry.serial := publicKey, secretKey, serial;
  }

  /** device_new_credentials: keys by mode. */
  method NewCredentials(mode: Mode, ghost name: string, list: LinkedList<Entry>, ghost devices: seq<Device>, e: Entropy)
    returns (ret: int, publicKey: seq<Byte>, secretKey: seq<Byte>, serial: seq<Byte>)
    requires list.Valid() && devices == DevicesOf(list.Contents) && GoodEntropy(devices, e)
    ensures ret == 0 <==> NewDevice(devices, mode, name, e).Some?
    ensures ret == 0 ==>
              NewDevice(devices, mode, name, e) == Some(Device(e.uuid, name, mode, publicKey, secretKey, serial))
  {
    ret, publicKey, secretKey, serial := 0, [], [], [];
    match mode {
      case Psk =>
        publicKey := NewPskId(e.pskId);
        secretKey := e.psk;
      case Cert =>
        if e.certificate.None? {
          ret := -1;
          return;
        }
        serial := NewSerial(list, devices, e.draws);
        publicKey, secretKey := e.certificate.value.0, e.certificate.value.1;
      case NoCredentials =>
      case Undefined =>
        ret := -1;
    }
  }

  /** The answer object: public fields, for certificates the server key, then the secret key. */
  method EntryToAnswer(entry: Entry, ghost d: Device, e: Entropy) returns (answer: Option<Json>, inside: bool)
    requires d == entry.Value()
    ensures inside == AnswerStaysInside(d, e)
    ensures answer.Some? == PostAnswer(d, e).Some? && (inside ==> answer == PostAnswer(d, e))
  {
    inside := true;
    if entry.mode == Undefined {
      return None, inside;
    }
    var status, publicKey, inside' := DatabaseEntries.EncodeField(entry.publicKey);
    inside := inside';
    if status != Base64Codec.ERR_NONE {
      return None, inside;
    }
    var fields := [Field(UUID, Text(entry.uuid)), Field(NAME, Text(entry.name)),
                   Field(MODE, Text(ModeToString(entry.mode))), Field(PUBLIC_KEY, Text(publicKey))];
    var serverKey := [];
    if entry.mode == Cert {
      if e.serverKey.None? {
        return None, inside;
      }
      serverKey := [Field("server_key", Text(e.serverKey.value))];
    }
    var secretKey;
    status, secretKey, inside' := DatabaseEntries.EncodeField(entry.secretKey);
    inside := inside && inside';
    if status != Base64Codec.ERR_NONE {
      return None, inside;
    }
    answer := Some(Object(fields + serverKey + [Field(SECRET_KEY, Text(secretKey))]));
  }

  /** Creates the entry and its answer, then drops the private key of a certificate. */
  method MakeEntry(j: Json, list: LinkedList<Entry>, ghost devices: seq<Device>, e: Entropy)
    returns (entry: Entry?, answer: Option<Json>, inside: bool)
    requires list.Valid() && devices == DevicesOf(list.Contents) && GoodEntropy(devices, e)
    ensures var outcome := NewOutcome(devices, j, e);
            && inside == outcome.intact && (entry == null <==> outcome.status == 500)
            && (inside ==> answer == outcome.answer)
            && (entry != null ==> fresh(entry) && outcome.status == 201 && outcome.change == Some(Post(entry.Value())))
  {
    answer, inside := None, true;
    entry := CreateNewEntry(j, list, devices, e);
    if entry == null {
      return;
    }
    ghost var made := entry.Value();
    answer, inside := EntryToAnswer(entry, made, e);
    if answer.None? {
      return null, None, inside;
    }
    if entry.mode == Cert {
      entry.secretKey := [];
    }
  }

  /** database_get_entry_by_uuid: the first entry with the uuid, and its position. */
  method FindByUuid(list: LinkedList<Entry>, ghost devices: seq<Device>, uuid: string)
    returns (entry: Entry?, ghost p: nat)
    requires list.Valid() && devices == DevicesOf(list.Contents)
    ensures p == Position(devices, uuid)
    ensures entry == if Position(devices, uuid) < |devices| then list.Contents[Position(devices, uuid)] else null
  {
    var node := list.head;
    p := 0;
    while node != null
      invariant p <= |devices| && node == list.At(p)
      invariant forall i :: 0 <= i < p ==> devices[i].uuid != uuid
      decreases |devices| - p
    {
      if node.data.uuid == uuid {
        return node.data, p;
      }
      node := node.next;
      p := p + 1;
    }
    entry := null;
  }

  // ---- Saving --------------------------------------------------------------------------------------------

  /** The loop that appends one object for each device, in list order. */
  method ToJsonArray(list: LinkedList<Entry>, ghost devices: seq<Device>)
    returns (ret: int, elements: seq<Json>, inside: bool)
    requires list.Valid() && devices == DevicesOf(list.Contents)
    ensures ret == if Saved(devices).Some? then 0 else -1
    ensures inside == SaveStaysInside(devices)
    ensures ret == 0 && inside ==> elements == Saved(devices).value
  {
    elements, inside := [], true;
    var node := list.head;
    ghost var k := 0;
    while node != null
      invariant k <= |devices| && node == list.At(k)
      invariant SavedSoFar(devices, k, elements, inside)
      decreases |devices| - k
    {
      assert node.data.Value() == devices[k] && node.next == list.At(k + 1);
      ret, elements, inside := AppendEntry(node.data, devices, k, elements, inside);
      if ret != 0 {
        return;
      }
      node := node.next;
      k := k + 1;
    }
    AllSaved(devices, elements, inside);
    ret := 0;
  }

  lemma AllSaved(devices: seq<Device>, elements: seq<Json>, inside: bool)
    requires SavedSoFar(devices, |devices|, elements, inside)
    ensures Saved(devices).Some? && inside == SaveStaysInside(devices) && (inside ==> elements == Saved(devices).value)
  {
  }

  /** After k devices that could be saved: their objects, unless a buffer was left. */
  ghost predicate SavedSoFar(devices: seq<Device>, k: nat, elements: seq<Json>, inside: bool)
    requires k <= |devices|
  {
    && SavableFrom(devices, 0) == SavableFrom(devices, k)
    && StaysFrom(devices, 0) == (inside && StaysFrom(devices, k))
    && (inside && SavableFrom(devices, 0) ==> elements == SavedArray(devices)[..k])
  }

  /** One turn of the loop. */
  method AppendEntry(entry: Entry, ghost devices: seq<Device>, ghost k: nat, elements: seq<Json>, inside: bool)
    returns (ret: int, more: seq<Json>, still: bool)
    requires k < |devices| && entry.Value() == devices[k] && SavedSoFar(devices, k, elements, inside)
    ensures ret == if Savable(devices[k]) then 0 else -1
    ensures ret == 0 ==> SavedSoFar(devices, k + 1, more, still)
    ensures ret == -1 ==> !SavableFrom(devices, 0) && still == StaysFrom(devices, 0)
  {
    var element;
    ret, element, still := EntryToJson(entry, devices[k]);
    still := inside && still;
    more := elements + [element];
    if ret == 0 && still && SavableFrom(devices, 0) {
      SavedNext(devices, k, elements, element);
    }
  }

  method EntryToJson(entry: Entry, ghost d: Device) returns (ret: int, j: Json, inside: bool)
    requires d == entry.Value()
    ensures ret == if Savable(d) then 0 else -1
    ensures inside == StaysInside(d)
    ensures ret == 0 && inside ==> j == SavedEntry(d)
  {
    j := Other;
    var status, secretKey, publicKey, serial, inside';
    status, secretKey, inside := DatabaseEntries.EncodeField(entry.secretKey);
    if status != Base64Codec.ERR_NONE {
      return -1, j, inside;
    }
    status, publicKey, inside' := DatabaseEntries.EncodeField(entry.publicKey);
    inside := inside && inside';
    if status != Base64Codec.ERR_NONE {
      return -1, j, inside;
    }
    status, serial, inside' := DatabaseEntries.EncodeField(entry.serial);
    inside := inside && inside';
    if status != Base64Codec.ERR_NONE || entry.mode == Undefined {
      return -1, j, inside;
    }
    ret := 0;
    j := Object([Field(UUID, Text(entry.uuid)), Field(NAME, Text(entry.name)),
                 Field(MODE, Text(ModeToString(entry.mode))), Field(SECRET_KEY, Text(secretKey)),
                 Field(PUBLIC_KEY, Text(publicKey)), Field(SERIAL, Text(serial))]);
  }

  lemma LoadedOneMore(elements: seq<Json>, i: nat)
    requires i < |elements|
    ensures Loaded(elements[..i + 1]) == LoadedFrom(elements[i]) + Loaded(elements[..i])
  {
    LoadedAppend(elements[..i], elements[i], LoadedFrom(elements[i]), elements[..i + 1]);
  }

  /** Validates, then constructs; null for an element that fails either. */
  method TryCreate(element: Json) returns (entry: Entry?)
    ensures entry != null ==> fresh(entry)
    ensures LoadedFrom(element) == if entry == null then [] else [entry.Value()]
  {
    entry := null;
    var ret, outside := DatabaseEntries.ValidateEntry(element);
    if ret == 0 {
      entry := CreateEntry(element);
    }
  }
}
