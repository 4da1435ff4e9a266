/**
 * Devices, their JSON form, and the operations on the device list, as functions on values. DeviceDatabase
 * proves the program's loops against them.
 */
module Devices {
  import opened Wrappers
  import opened Base64
  import opened Json

  datatype Mode = Undefined | Psk | Cert | NoCredentials

  datatype Device = Device(uuid: string, name: string, mode: Mode,
                           publicKey: seq<Byte>, secretKey: seq<Byte>, serial: seq<Byte>)

  /** The size of the scratch buffers for credentials. */
  const CREDENTIALS_MAX_SIZE: nat := 1024

  const UUID: string := "uuid"
  const NAME: string := "name"
  const MODE: string := "mode"
  const PUBLIC_KEY: string := "public_key"
  const SECRET_KEY: string := "secret_key"
  const SERIAL: string := "serial"

  function ModeFromString(s: string): Mode {
    if EqualIgnoringCase(s, "psk") then Psk
    else if EqualIgnoringCase(s, "cert") then Cert
    else if EqualIgnoringCase(s, "none") then NoCredentials
    else Undefined
  }

  function ModeToString(mode: Mode): string
    requires mode != Undefined
  {
    match mode
    case Psk => "psk"
    case Cert => "cert"
    case NoCredentials => "none"
  }

  lemma ModeRoundTrip(mode: Mode)
    requires mode != Undefined
    ensures ModeFromString(ModeToString(mode)) == mode
  {
    assert !EqualIgnoringCase("none", "cert") by {
      assert "none"[0] == 'n' && "cert"[0] == 'c';
    }
  }

  /** The texts that are written, and that their case does not matter when they are read. */
  lemma ModeTexts()
    ensures ModeToString(Psk) == "psk" && ModeToString(Cert) == "cert" && ModeToString(NoCredentials) == "none"
    ensures ModeFromString("PSK") == Psk && ModeFromString("Cert") == Cert && ModeFromString("NONE") == NoCredentials
  {
    assert Lower("NONE"[0]) == 'n' && "cert"[0] == 'c';
    assert EqualIgnoringCase("PSK", "psk") && EqualIgnoringCase("Cert", "cert") && EqualIgnoringCase("NONE", "none");
  }

  // ---- What an entry of the file must look like ----------------------------------------------------------

  ghost predicate IsCredentialKey(key: string) {
    EqualIgnoringCase(key, PUBLIC_KEY) || EqualIgnoringCase(key, SECRET_KEY) || EqualIgnoringCase(key, SERIAL)
  }

  /** Refused as too short to hold anything, or decoded into the scratch buffer without error. */
  ghost predicate AcceptedCredential(text: string) {
    DecodedLength(text) <= 0 || (Decodable(text) && DecodedLength(text) <= CREDENTIALS_MAX_SIZE)
  }

  ghost predicate AcceptedField(field: Field) {
    && field.value.Text?
    && (EqualIgnoringCase(field.key, MODE) ==> ModeFromString(field.value.text) != Undefined)
    && (IsCredentialKey(field.key) ==> AcceptedCredential(field.value.text))
  }

  ghost predicate HasKey(fields: seq<Field>, key: string) {
    exists f :: f in fields && EqualIgnoringCase(f.key, key)
  }

  /** An entry is valid when every field is acceptable on its own and all six keys occur, in whatever case. */
  ghost predicate ValidEntry(j: Json) {
    && j.Object?
    && (forall f :: f in j.fields ==> AcceptedField(f))
    && HasKey(j.fields, UUID) && HasKey(j.fields, NAME) && HasKey(j.fields, MODE)
    && HasKey(j.fields, PUBLIC_KEY) && HasKey(j.fields, SECRET_KEY) && HasKey(j.fields, SERIAL)
  }

  lemma ValidityIgnoresOrder(fields: seq<Field>, reordered: seq<Field>)
    requires multiset(fields) == multiset(reordered)
    ensures ValidEntry(Object(fields)) == ValidEntry(Object(reordered))
  {
    assert forall f :: f in fields <==> f in multiset(fields);
    assert forall f :: f in reordered <==> f in multiset(reordered);
  }

  /** A text under any further key makes no difference. */
  lemma ValidityIgnoresExtraText(fields: seq<Field>, extra: Field)
    requires extra.value.Text?
    requires !IsCredentialKey(extra.key) && !EqualIgnoringCase(extra.key, MODE)
    requires !EqualIgnoringCase(extra.key, UUID) && !EqualIgnoringCase(extra.key, NAME)
    ensures ValidEntry(Object(fields + [extra])) <==> ValidEntry(Object(fields))
  {
    assert AcceptedField(extra);
    ExtraField(fields, extra);
    forall name | !EqualIgnoringCase(extra.key, name)
      ensures HasKey(fields + [extra], name) <==> HasKey(fields, name)
    {
      ExtraKey(fields, extra, name);
    }
  }

  lemma ExtraField(fields: seq<Field>, extra: Field)
    requires AcceptedField(extra)
    ensures (forall f :: f in fields + [extra] ==> AcceptedField(f)) <==> forall f :: f in fields ==> AcceptedField(f)
  {
    assert forall f :: f in fields + [extra] <==> f in fields || f == extra;
  }

  lemma ExtraKey(fields: seq<Field>, extra: Field, name: string)
    requires !EqualIgnoringCase(extra.key, name)
    ensures HasKey(fields + [extra], name) <==> HasKey(fields, name)
  {
    assert forall f :: f in fields + [extra] <==> f in fields || f == extra;
  }

  // ---- Building a device from an entry -------------------------------------------------------------------

  ghost function BinaryField(j: Json, key: string): Option<seq<Byte>> {
    var text := GetString(j, key);
    if text.Some? && Decodable(text.value) then Some(Decode(text.value)) else None
  }

  function EntryMode(j: Json): Mode {
    var text := GetString(j, MODE);
    if text.Some? then ModeFromString(text.value) else Undefined
  }

  ghost function CreatedDevice(j: Json): Option<Device> {
    var uuid, name := GetString(j, UUID), GetString(j, NAME);
    if EntryMode(j) == Undefined || uuid.None? || name.None? then None
    else
      var publicKey := BinaryField(j, PUBLIC_KEY);
      if EntryMode(j) == Psk then
        var secretKey := BinaryField(j, SECRET_KEY);
        if publicKey.None? || secretKey.None? then None
        else Some(Device(uuid.value, name.value, Psk, publicKey.value, secretKey.value, []))
      else if EntryMode(j) == Cert then
        var serial := BinaryField(j, SERIAL);
        if publicKey.None? || serial.None? then None
        else Some(Device(uuid.value, name.value, Cert, publicKey.value, [], serial.value))
      else Some(Device(uuid.value, name.value, NoCredentials, [], [], []))
  }

  /** What every device in the list satisfies, mode by mode. */
  predicate WellFormed(d: Device) {
    match d.mode
    case Undefined => false
    case Psk => d.publicKey != [] && d.secretKey != [] && d.serial == []
    case Cert => d.publicKey != [] && d.secretKey == [] && d.serial != []
    case NoCredentials => d.publicKey == [] && d.secretKey == [] && d.serial == []
  }

  lemma CreatedIsWellFormed(j: Json)
    requires CreatedDevice(j).Some?
    ensures WellFormed(CreatedDevice(j).value)
  {
  }

  // ---- The list as a JSON array and back -----------------------------------------------------------------

  /** The size check of the encoder, which leaves out the terminator. */
  predicate PassesCheck(data: seq<Byte>) {
    EncodedLength(|data|) <= CREDENTIALS_MAX_SIZE
  }

  /** The text fills the scratch buffer, and its terminator is written behind it. */
  predicate Spills(data: seq<Byte>) {
    EncodedLength(|data|) == CREDENTIALS_MAX_SIZE
  }

  /** The encoded field and its terminator fit the scratch buffer. */
  predicate FitsField(data: seq<Byte>) {
    PassesCheck(data) && !Spills(data)
  }

  predicate Fits(d: Device) {
    FitsField(d.publicKey) && FitsField(d.secretKey) && FitsField(d.serial)
  }

  /** Small enough for the scratch buffer of the validation, which holds decoded bytes. */
  predicate Acceptable(d: Device) {
    && |d.publicKey| <= CREDENTIALS_MAX_SIZE && |d.secretKey| <= CREDENTIALS_MAX_SIZE
    && |d.serial| <= CREDENTIALS_MAX_SIZE
  }

  /** The three ranges of the encoder: it fits, it spills, it is refused. */
  lemma FitsExactly(data: seq<Byte>)
    ensures FitsField(data) <==> |data| <= 765
    ensures Spills(data) <==> 766 <= |data| <= 768
    ensures PassesCheck(data) <==> |data| <= 768
  {
  }

  function SavedEntry(d: Device): Json
    requires d.mode != Undefined
  {
    Object([Field(UUID, Text(d.uuid)), Field(NAME, Text(d.name)), Field(MODE, Text(ModeToString(d.mode))),
            Field(SECRET_KEY, Text(Encode(d.secretKey))), Field(PUBLIC_KEY, Text(Encode(d.publicKey))),
            Field(SERIAL, Text(Encode(d.serial)))])
  }

  predicate AllWellFormed(devices: seq<Device>) {
    forall i :: 0 <= i < |devices| ==> WellFormed(devices[i])
  }

  predicate AllFit(devices: seq<Device>) {
    forall i :: 0 <= i < |devices| ==> Fits(devices[i])
  }

  predicate ModesKnown(devices: seq<Device>) {
    forall i :: 0 <= i < |devices| ==> devices[i].mode != Undefined
  }

  function SavedArray(devices: seq<Device>): (entries: seq<Json>)
    requires ModesKnown(devices)
    ensures |entries| == |devices|
    ensures forall i :: 0 <= i < |devices| ==> entries[i] == SavedEntry(devices[i])
  {
    seq(|devices|, i requires 0 <= i < |devices| => SavedEntry(devices[i]))
  }

  /** The entries that validate and construct, in array order. */
  ghost function Loadable(entries: seq<Json>): seq<Device> {
    FlatMap(entries, LoadedFrom)
  }

  ghost function LoadedFrom(entry: Json): seq<Device> {
    if ValidEntry(entry) && CreatedDevice(entry).Some? then [CreatedDevice(entry).value] else []
  }

  /** The list that loading builds: each entry is put in front of the ones before it. */
  ghost function Loaded(entries: seq<Json>): seq<Device> {
    Reverse(Loadable(entries))
  }

  lemma LoadableOne(entry: Json)
    ensures Loadable([entry]) == LoadedFrom(entry)
  {
    FlatMapOne(entry, LoadedFrom);
  }

  lemma LoadedFromIsShort(entry: Json)
    ensures |LoadedFrom(entry)| <= 1
  {
  }

  lemma LoadableConcat(a: seq<Json>, b: seq<Json>)
    ensures Loadable(a + b) == Loadable(a) + Loadable(b)
  {
    FlatMapConcat(a, b, LoadedFrom);
  }

  /** One element, good or bad, only adds or omits its own device: the others load as without it. */
  lemma LoadedAround(before: seq<Json>, entry: Json, after: seq<Json>)
    ensures Loaded(before + [entry] + after) == Loaded(after) + LoadedFrom(entry) + Loaded(before)
  {
    LoadableConcat(before + [entry], after);
    LoadableConcat(before, [entry]);
    LoadableOne(entry);
    LoadedFromIsShort(entry);
    ReversedParts(Loadable(before), LoadedFrom(entry), Loadable(after));
  }

  lemma ReversedParts(a: seq<Device>, b: seq<Device>, c: seq<Device>)
    requires |b| <= 1
    ensures Reverse(a + b + c) == Reverse(c) + b + Reverse(a)
  {
    ReverseConcat(a + b, c);
    ReverseConcat(a, b);
    assert Reverse(b) == b;
    assert Reverse(c) + (b + Reverse(a)) == Reverse(c) + b + Reverse(a);
  }

  lemma LoadableAppend(entries: seq<Json>, entry: Json, device: seq<Device>)
    requires device == LoadedFrom(entry)
    ensures Loadable(entries + [entry]) == Loadable(entries) + device && |device| <= 1
  {
    LoadableConcat(entries, [entry]);
    LoadableOne(entry);
    LoadedFromIsShort(entry);
  }

  lemma LoadedAppend(entries: seq<Json>, entry: Json, device: seq<Device>, all: seq<Json>)
    requires device == LoadedFrom(entry) && all == entries + [entry]
    ensures Loaded(all) == device + Loaded(entries)
  {
    LoadableAppend(entries, entry, device);
    ReverseConcat(Loadable(entries), device);
    assert Reverse(device) == device;
  }

  lemma {:induction false} LoadedIsWellFormed(entries: seq<Json>)
    ensures AllWellFormed(Loadable(entries)) && AllWellFormed(Loaded(entries))
  {
    if entries != [] {
      LoadedIsWellFormed(entries[1..]);
      if CreatedDevice(entries[0]).Some? {
        CreatedIsWellFormed(entries[0]);
      }
    }
  }

  // ---- Which elements load, key by key -------------------------------------------------------------------

  ghost predicate IsModeText(text: string) {
    EqualIgnoringCase(text, "psk") || EqualIgnoringCase(text, "cert") || EqualIgnoringCase(text, "none")
  }

  /** The text decodes to nothing, or to at most 1024 bytes. */
  ghost predicate SmallCredential(text: string) {
    DecodedLength(text) <= 0 || (Decodable(text) && DecodedLength(text) <= 1024)
  }

  ghost predicate AcceptableUnder(key: string, value: Json) {
    && value.Text?
    && (EqualIgnoringCase(key, "mode") ==> IsModeText(value.text))
    && (EqualIgnoringCase(key, "public_key") ==> SmallCredential(value.text))
    && (EqualIgnoringCase(key, "secret_key") ==> SmallCredential(value.text))
    && (EqualIgnoringCase(key, "serial") ==> SmallCredential(value.text))
  }

  ghost predicate DecodesUnder(j: Json, key: string) {
    GetString(j, key).Some? && Decodable(GetString(j, key).value)
  }

  /**
   * An element of the file loads if and only if it is an object with all six keys, in any case, every value is a
   * text that suits its key, and what its mode needs is there under the exact key and decodes.
   */
  lemma LoadsExactly(j: Json)
    ensures LoadedFrom(j) != [] <==>
              && j.Object? && (forall f :: f in j.fields ==> AcceptableUnder(f.key, f.value))
              && HasKey(j.fields, "uuid") && HasKey(j.fields, "name") && HasKey(j.fields, "mode")
              && HasKey(j.fields, "public_key") && HasKey(j.fields, "secret_key") && HasKey(j.fields, "serial")
              && GetString(j, "uuid").Some? && GetString(j, "name").Some? && GetString(j, "mode").Some?
              && var mode := GetString(j, "mode").value;
                 && (EqualIgnoringCase(mode, "psk") ==> DecodesUnder(j, "public_key") && DecodesUnder(j, "secret_key"))
                 && (EqualIgnoringCase(mode, "cert") ==> DecodesUnder(j, "public_key") && DecodesUnder(j, "serial"))
                 && IsModeText(mode)
  {
    OneMode();
    if j.Object? {
      forall f | f in j.fields
        ensures AcceptedField(f) <==> AcceptableUnder(f.key, f.value)
      {
      }
    }
  }

  /** No text is read as two modes. */
  lemma OneMode()
    ensures forall text :: EqualIgnoringCase(text, "psk") ==> !EqualIgnoringCase(text, "cert")
    ensures forall text :: EqualIgnoringCase(text, "psk") ==> !EqualIgnoringCase(text, "none")
    ensures forall text :: EqualIgnoringCase(text, "cert") ==> !EqualIgnoringCase(text, "none")
  {
    forall text | EqualIgnoringCase(text, "cert")
      ensures !EqualIgnoringCase(text, "none")
    {
      assert Lower(text[0]) == 'c' && "none"[0] == 'n';
    }
  }

  /** The device that an element loads as, by its mode. */
  lemma LoadedFields(j: Json, d: Device)
    requires LoadedFrom(j) == [d]
    ensures GetString(j, "uuid") == Some(d.uuid) && GetString(j, "name") == Some(d.name) && GetString(j, "mode").Some?
    ensures var mode := GetString(j, "mode").value;
            && (EqualIgnoringCase(mode, "psk") ==>
                 && d.mode == Psk && d.serial == [] && DecodesUnder(j, "public_key") && DecodesUnder(j, "secret_key")
                 && d.publicKey == Decode(GetString(j, "public_key").value)
                 && d.secretKey == Decode(GetString(j, "secret_key").value))
            && (EqualIgnoringCase(mode, "cert") ==>
                 && d.mode == Cert && d.secretKey == [] && DecodesUnder(j, "public_key") && DecodesUnder(j, "serial")
                 && d.publicKey == Decode(GetString(j, "public_key").value)
                 && d.serial == Decode(GetString(j, "serial").value))
            && (EqualIgnoringCase(mode, "none") ==> d == Device(d.uuid, d.name, NoCredentials, [], [], []))
  {
    OneMode();
  }

  lemma KeysDiffer()
    ensures UUID != NAME && UUID != MODE && NAME != MODE && PUBLIC_KEY != SECRET_KEY
    ensures |PUBLIC_KEY| == |SECRET_KEY| == 10 && |SERIAL| == 6 && |UUID| == |NAME| == |MODE| == 4
  {
    assert UUID[0] == 'u' && NAME[0] == 'n' && MODE[0] == 'm' && PUBLIC_KEY[0] == 'p' && SECRET_KEY[0] == 's';
  }

  /** No key is equal to two of the six names, whatever its case. */
  lemma KeysDifferInAnyCase()
    ensures !EqualIgnoringCase(PUBLIC_KEY, SECRET_KEY)
    ensures !EqualIgnoringCase(UUID, MODE) && !EqualIgnoringCase(NAME, MODE) && !EqualIgnoringCase(UUID, NAME)
    ensures |PUBLIC_KEY| == |SECRET_KEY| == 10 && |SERIAL| == 6 && |UUID| == |NAME| == |MODE| == 4
  {
    assert UUID[0] == 'u' && NAME[0] == 'n' && MODE[0] == 'm' && PUBLIC_KEY[0] == 'p' && SECRET_KEY[0] == 's';
  }

  /** What a save writes for a device, key by key. */
  lemma SavedEntryFields(d: Device)
    requires d.mode != Undefined
    ensures var j := SavedEntry(d);
            && GetString(j, "uuid") == Some(d.uuid) && GetString(j, "name") == Some(d.name)
            && GetString(j, "mode") == Some(if d.mode == Psk then "psk" else if d.mode == Cert then "cert" else "none")
            && GetString(j, "public_key") == Some(Encode(d.publicKey))
            && GetString(j, "secret_key") == Some(Encode(d.secretKey))
            && GetString(j, "serial") == Some(Encode(d.serial))
            && |j.fields| == 6
  {
    KeysDiffer();
    var fields := SavedEntry(d).fields;
    FirstWithKeyAt(fields, 0);
    FirstWithKeyAt(fields, 1);
    FirstWithKeyAt(fields, 2);
    FirstWithKeyAt(fields, 3);
    FirstWithKeyAt(fields, 4);
    FirstWithKeyAt(fields, 5);
  }

  lemma EncodedIsAccepted(data: seq<Byte>)
    requires |data| <= CREDENTIALS_MAX_SIZE
    ensures AcceptedCredential(Encode(data))
  {
    if data == [] {
      EmptyText();
    } else {
      RoundTrip(data);
      EncodedShape(data);
    }
  }

  lemma HasKeyAt(fields: seq<Field>, i: nat)
    requires i < |fields|
    ensures HasKey(fields, fields[i].key)
  {
    assert fields[i] in fields && EqualIgnoringCase(fields[i].key, fields[i].key);
  }

  lemma PlainFieldAccepted(key: string, text: string)
    requires |key| == 4 && !EqualIgnoringCase(key, MODE)
    ensures AcceptedField(Field(key, Text(text)))
  {
    KeysDifferInAnyCase();
  }

  lemma CredentialFieldAccepted(key: string, data: seq<Byte>)
    requires |data| <= CREDENTIALS_MAX_SIZE && |key| != 4
    ensures AcceptedField(Field(key, Text(Encode(data))))
  {
    KeysDifferInAnyCase();
    EncodedIsAccepted(data);
  }

  lemma ModeFieldAccepted(mode: Mode)
    requires mode != Undefined
    ensures AcceptedField(Field(MODE, Text(ModeToString(mode))))
  {
    KeysDifferInAnyCase();
    ModeRoundTrip(mode);
  }

  lemma SavedFieldsAccepted(d: Device)
    requires d.mode != Undefined && Acceptable(d)
    ensures forall f :: f in SavedEntry(d).fields ==> AcceptedField(f)
  {
    KeysDifferInAnyCase();
    PlainFieldAccepted(UUID, d.uuid);
    PlainFieldAccepted(NAME, d.name);
    ModeFieldAccepted(d.mode);
    CredentialFieldAccepted(SECRET_KEY, d.secretKey);
    CredentialFieldAccepted(PUBLIC_KEY, d.publicKey);
    CredentialFieldAccepted(SERIAL, d.serial);
  }

  lemma SavedEntryIsValid(d: Device)
    requires d.mode != Undefined && Acceptable(d)
    ensures ValidEntry(SavedEntry(d))
  {
    var fields := SavedEntry(d).fields;
    SavedFieldsAccepted(d);
    HasKeyAt(fields, 0);
    HasKeyAt(fields, 1);
    HasKeyAt(fields, 2);
    HasKeyAt(fields, 3);
    HasKeyAt(fields, 4);
    HasKeyAt(fields, 5);
  }

  lemma EncodedField(j: Json, key: string, data: seq<Byte>)
    requires GetString(j, key) == Some(Encode(data)) && data != []
    ensures BinaryField(j, key) == Some(data)
  {
    RoundTrip(data);
  }

  lemma CreatedFromSaved(d: Device)
    requires WellFormed(d)
    ensures CreatedDevice(SavedEntry(d)) == Some(d)
  {
    var j := SavedEntry(d);
    SavedEntryFields(d);
    ModeRoundTrip(d.mode);
    if d.mode == Psk {
      EncodedField(j, PUBLIC_KEY, d.publicKey);
      EncodedField(j, SECRET_KEY, d.secretKey);
    } else if d.mode == Cert {
      EncodedField(j, PUBLIC_KEY, d.publicKey);
      EncodedField(j, SERIAL, d.serial);
    }
  }

  lemma SavedEntryLoads(d: Device)
    requires WellFormed(d) && Acceptable(d)
    ensures LoadedFrom(SavedEntry(d)) == [d]
  {
    SavedEntryIsValid(d);
    CreatedFromSaved(d);
  }

  lemma SavedHead(devices: seq<Device>)
    requires ModesKnown(devices) && devices != []
    ensures SavedArray(devices) == [SavedEntry(devices[0])] + SavedArray(devices[1..])
  {
  }

  lemma SavedEntryInFront(d: Device, rest: seq<Json>)
    requires WellFormed(d) && Fits(d)
    ensures Loadable([SavedEntry(d)] + rest) == [d] + Loadable(rest)
  {
    SavedEntryLoads(d);
    assert ([SavedEntry(d)] + rest)[1..] == rest;
  }

  /** Persistence: loading what was saved rebuilds the same devices, in reversed order. */
  lemma {:induction false} SaveThenLoad(devices: seq<Device>)
    requires AllWellFormed(devices) && AllFit(devices)
    ensures Loadable(SavedArray(devices)) == devices
    ensures Loaded(SavedArray(devices)) == Reverse(devices)
  {
    if devices != [] {
      SavedHead(devices);
      SaveThenLoad(devices[1..]);
      SavedEntryInFront(devices[0], SavedArray(devices[1..]));
    }
  }

  /** Saving and loading twice is the identity. */
  lemma SaveAndLoadTwice(devices: seq<Device>)
    requires AllWellFormed(devices) && AllFit(devices)
    ensures AllWellFormed(Loaded(SavedArray(devices)))
    ensures Loaded(SavedArray(Loaded(SavedArray(devices)))) == devices
  {
    SaveThenLoad(devices);
    SaveThenLoad(Reverse(devices));
    ReverseTwice(devices);
  }
}
