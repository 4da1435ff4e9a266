/** The loops over JSON objects and credential texts: validation, construction and encoding of single entries. */
module DatabaseEntries {
  import opened Wrappers
  import opened Base64
  import opened Json
  import opened Devices
  import DeviceRequests
  import Base64Codec

  // ---- The key check -------------------------------------------------------------------------------------

  const UUID_BIT: bv8 := 0x01
  const MODE_BIT: bv8 := 0x02
  const NAME_BIT: bv8 := 0x04
  const PUBLIC_KEY_BIT: bv8 := 0x08
  const SECRET_KEY_BIT: bv8 := 0x10
  const SERIAL_BIT: bv8 := 0x20
  const ALL_NEW_KEYS_SET: bv8 := 0x06
  const ALL_KEYS_SET: bv8 := 0x3f

  function KeyBit(key: string): bv8 {
    if EqualIgnoringCase(key, UUID) then UUID_BIT
    else if EqualIgnoringCase(key, NAME) then NAME_BIT
    else if EqualIgnoringCase(key, MODE) then MODE_BIT
    else if EqualIgnoringCase(key, PUBLIC_KEY) then PUBLIC_KEY_BIT
    else if EqualIgnoringCase(key, SECRET_KEY) then SECRET_KEY_BIT
    else if EqualIgnoringCase(key, SERIAL) then SERIAL_BIT
    else 0
  }

  function KeyBits(fields: seq<Field>): bv8 {
    if fields == [] then 0 else KeyBits(fields[..|fields| - 1]) | KeyBit(fields[|fields| - 1].key)
  }

  predicate Names(key: string, name: string, bit: bv8) {
    EqualIgnoringCase(key, name) <==> KeyBit(key) & bit != 0
  }

  lemma KeyBitNames(key: string)
    ensures Names(key, UUID, UUID_BIT) && Names(key, NAME, NAME_BIT) && Names(key, MODE, MODE_BIT)
    ensures Names(key, PUBLIC_KEY, PUBLIC_KEY_BIT) && Names(key, SECRET_KEY, SECRET_KEY_BIT)
    ensures Names(key, SERIAL, SERIAL_BIT)
    ensures KeyBit(key) & 0xc0 == 0
  {
    KeysDifferInAnyCase();
    if EqualIgnoringCase(key, UUID) {
    } else if EqualIgnoringCase(key, NAME) {
    } else if EqualIgnoringCase(key, MODE) {
    } else if EqualIgnoringCase(key, PUBLIC_KEY) {
    } else if EqualIgnoringCase(key, SECRET_KEY) {
    } else {
    }
  }

  lemma BitOfUnion(a: bv8, b: bv8, bit: bv8)
    ensures (a | b) & bit != 0 <==> a & bit != 0 || b & bit != 0
  {
  }

  lemma {:induction false} HasKeyIsBit(fields: seq<Field>, name: string, bit: bv8)
    requires forall f :: f in fields ==> Names(f.key, name, bit)
    ensures HasKey(fields, name) <==> KeyBits(fields) & bit != 0
  {
    if fields == [] {
      assert (0 as bv8) & bit == 0;
    } else {
      var front, last := fields[..|fields| - 1], fields[|fields| - 1];
      assert fields == front + [last];
      HasKeyIsBit(front, name, bit);
      BitOfUnion(KeyBits(front), KeyBit(last.key), bit);
      assert HasKey(fields, name) <==> HasKey(front, name) || EqualIgnoringCase(last.key, name);
    }
  }

  lemma {:induction false} NoHighBits(fields: seq<Field>)
    ensures KeyBits(fields) & 0xc0 == 0
  {
    if fields != [] {
      NoHighBits(fields[..|fields| - 1]);
      KeyBitNames(fields[|fields| - 1].key);
    }
  }

  /** The mask holds every bit exactly when the six keys occur. */
  lemma AllKeysSet(fields: seq<Field>)
    ensures KeyBits(fields) == ALL_KEYS_SET <==>
            && HasKey(fields, UUID) && HasKey(fields, NAME) && HasKey(fields, MODE)
            && HasKey(fields, PUBLIC_KEY) && HasKey(fields, SECRET_KEY) && HasKey(fields, SERIAL)
  {
    forall f | f in fields
      ensures Names(f.key, UUID, UUID_BIT) && Names(f.key, NAME, NAME_BIT) && Names(f.key, MODE, MODE_BIT)
      ensures Names(f.key, PUBLIC_KEY, PUBLIC_KEY_BIT) && Names(f.key, SECRET_KEY, SECRET_KEY_BIT)
      ensures Names(f.key, SERIAL, SERIAL_BIT)
    {
      KeyBitNames(f.key);
    }
    HasKeyIsBit(fields, UUID, UUID_BIT);
    HasKeyIsBit(fields, NAME, NAME_BIT);
    HasKeyIsBit(fields, MODE, MODE_BIT);
    HasKeyIsBit(fields, PUBLIC_KEY, PUBLIC_KEY_BIT);
    HasKeyIsBit(fields, SECRET_KEY, SECRET_KEY_BIT);
    HasKeyIsBit(fields, SERIAL, SERIAL_BIT);
    NoHighBits(fields);
    SixBits(KeyBits(fields));
  }

  lemma SixBits(mask: bv8)
    requires mask & 0xc0 == 0
    ensures mask == ALL_KEYS_SET <==>
            && mask & UUID_BIT != 0 && mask & NAME_BIT != 0 && mask & MODE_BIT != 0
            && mask & PUBLIC_KEY_BIT != 0 && mask & SECRET_KEY_BIT != 0 && mask & SERIAL_BIT != 0
  {
  }

  // ---- Validation ----------------------------------------------------------------------------------------

  /** Decoding the text in the scratch buffer gets past its end. */
  ghost predicate LeavesScratch(text: string) {
    && 0 < DecodedLength(text) <= CREDENTIALS_MAX_SIZE
    && Base64Codec.Reach(Base64Codec.GoodPrefix(text)) > CREDENTIALS_MAX_SIZE
  }

  ghost predicate FieldLeaves(field: Field) {
    field.value.Text? && IsCredentialKey(field.key) && LeavesScratch(field.value.text)
  }

  /** No text made from less than the whole buffer does. */
  lemma EncodedStaysInScratch(data: seq<Byte>)
    requires |data| < CREDENTIALS_MAX_SIZE
    ensures !LeavesScratch(Encode(data))
  {
    if data == [] {
      EmptyText();
    } else {
      Base64Codec.EncodedTextReach(data);
    }
  }

  /** Validating what a save wrote keeps to the scratch buffer. */
  lemma SavedEntryStaysInScratch(d: Device)
    requires d.mode != Undefined && Fits(d)
    ensures forall f :: f in SavedEntry(d).fields ==> !FieldLeaves(f)
  {
    FitsExactly(d.secretKey);
    FitsExactly(d.publicKey);
    FitsExactly(d.serial);
    EncodedStaysInScratch(d.secretKey);
    EncodedStaysInScratch(d.publicKey);
    EncodedStaysInScratch(d.serial);
    KeysDifferInAnyCase();
  }

  /** The scratch buffer is the front of the array; behind it is what the decoder can reach. */
  method CheckCredential(text: string, buffer: array<Byte>, bufferLength: nat)
    returns (ok: bool, newLength: nat, outside: bool)
    requires buffer.Length == CREDENTIALS_MAX_SIZE + Base64Codec.OVERHANG && bufferLength == CREDENTIALS_MAX_SIZE
    modifies buffer
    ensures ok <==> AcceptedCredential(text)
    ensures newLength == bufferLength
    ensures outside <==> LeavesScratch(text)
  {
    if 0 < DecodedLength(text) {
      Base64Codec.SucceedsExactlyWhenDecodable(text);
      Base64Codec.ReachPastTheData(text, Base64Codec.GoodPrefix(text));
    }
    var ret, reach;
    ret, newLength, reach := Base64Codec.Decode(text, buffer, bufferLength);
    ok := ret == Base64Codec.ERR_NONE || ret == Base64Codec.ERR_ARG;
    outside := reach > bufferLength;
  }

  /** One turn of the loop: the bit to set, or a refusal. */
  method CheckField(field: Field, buffer: array<Byte>, bufferLength: nat)
    returns (ok: bool, bit: bv8, newLength: nat, outside: bool)
    requires buffer.Length == CREDENTIALS_MAX_SIZE + Base64Codec.OVERHANG && bufferLength == CREDENTIALS_MAX_SIZE
    modifies buffer
    ensures ok <==> AcceptedField(field)
    ensures ok ==> bit == KeyBit(field.key)
    ensures newLength == bufferLength
    ensures outside <==> FieldLeaves(field)
  {
    KeysDifferInAnyCase();
    ok, bit, newLength, outside := true, 0, bufferLength, false;
    if !field.value.Text? {
      ok := false;
    } else if EqualIgnoringCase(field.key, UUID) {
      bit := UUID_BIT;
    } else if EqualIgnoringCase(field.key, NAME) {
      bit := NAME_BIT;
    } else if EqualIgnoringCase(field.key, MODE) {
      ok := ModeFromString(field.value.text) != Undefined;
      bit := MODE_BIT;
    } else if EqualIgnoringCase(field.key, PUBLIC_KEY) {
      ok, newLength, outside := CheckCredential(field.value.text, buffer, newLength);
      bit := PUBLIC_KEY_BIT;
    } else if EqualIgnoringCase(field.key, SECRET_KEY) {
      ok, newLength, outside := CheckCredential(field.value.text, buffer, newLength);
      bit := SECRET_KEY_BIT;
    } else if EqualIgnoringCase(field.key, SERIAL) {
      ok, newLength, outside := CheckCredential(field.value.text, buffer, newLength);
      bit := SERIAL_BIT;
    }
  }

  /** `outside` tells whether some text that was looked at left the scratch buffer. */
  method ValidateEntry(j: Json) returns (ret: int, outside: bool)
    ensures ret == if ValidEntry(j) then 0 else -1
    ensures outside ==> j.Object? && exists f :: f in j.fields && FieldLeaves(f)
    ensures ret == 0 ==> (outside <==> exists f :: f in j.fields && FieldLeaves(f))
  {
    outside := false;
    if !j.Object? {
      return -1, outside;
    }
    var keyCheck: bv8 := 0;
    var buffer, bufferLength := new Byte[CREDENTIALS_MAX_SIZE + Base64Codec.OVERHANG], CREDENTIALS_MAX_SIZE;
    for i := 0 to |j.fields|
      invariant bufferLength == CREDENTIALS_MAX_SIZE
      invariant forall f :: f in j.fields[..i] ==> AcceptedField(f)
      invariant outside <==> exists f :: f in j.fields[..i] && FieldLeaves(f)
      invariant keyCheck == KeyBits(j.fields[..i])
    {
      var ok, bit, left;
      ok, bit, bufferLength, left := CheckField(j.fields[i], buffer, bufferLength);
      outside := outside || left;
      KeyBitsAppend(j.fields, i);
      if !ok {
        return -1, outside;
      }
      keyCheck := keyCheck | bit;
    }
    assert j.fields[..|j.fields|] == j.fields;
    AllKeysSet(j.fields);
    ret := if keyCheck != ALL_KEYS_SET then -1 else 0;
  }

  lemma KeyBitsAppend(fields: seq<Field>, i: nat)
    requires i < |fields|
    ensures fields[..i + 1] == fields[..i] + [fields[i]]
    ensures KeyBits(fields[..i + 1]) == KeyBits(fields[..i]) | KeyBit(fields[i].key)
  {
    assert fields[..i + 1][..i] == fields[..i];
  }

  method CheckNewField(field: Field) returns (ok: bool, bit: bv8)
    ensures ok <==> DeviceRequests.AcceptedNewField(field)
    ensures ok ==> bit == KeyBit(field.key) & ALL_NEW_KEYS_SET
  {
    KeyBitNames(field.key);
    KeysDifferInAnyCase();
    ok, bit := true, 0;
    if !field.value.Text? {
      ok := false;
    } else if EqualIgnoringCase(field.key, MODE) {
      ok := ModeFromString(field.value.text) != Undefined;
      bit := MODE_BIT;
    } else if EqualIgnoringCase(field.key, NAME) {
      bit := NAME_BIT;
    }
  }

  lemma MaskedUnion(a: bv8, b: bv8, mask: bv8)
    ensures (a | b) & mask == (a & mask) | (b & mask)
  {
  }

  lemma NewKeysSet(fields: seq<Field>)
    ensures KeyBits(fields) & ALL_NEW_KEYS_SET == ALL_NEW_KEYS_SET <==> HasKey(fields, MODE) && HasKey(fields, NAME)
  {
    forall f | f in fields
      ensures Names(f.key, NAME, NAME_BIT) && Names(f.key, MODE, MODE_BIT)
    {
      KeyBitNames(f.key);
    }
    HasKeyIsBit(fields, NAME, NAME_BIT);
    HasKeyIsBit(fields, MODE, MODE_BIT);
    TwoBits(KeyBits(fields));
  }

  lemma TwoBits(mask: bv8)
    ensures mask & ALL_NEW_KEYS_SET == ALL_NEW_KEYS_SET <==> mask & MODE_BIT != 0 && mask & NAME_BIT != 0
  {
  }

  method ValidateNewEntry(j: Json) returns (ret: int)
    ensures ret == if DeviceRequests.ValidNewEntry(j) then 0 else -1
  {
    if !j.Object? {
      return -1;
    }
    var keyCheck: bv8 := 0;
    for i := 0 to |j.fields|
      invariant forall f :: f in j.fields[..i] ==> DeviceRequests.AcceptedNewField(f)
      invariant keyCheck == KeyBits(j.fields[..i]) & ALL_NEW_KEYS_SET
    {
      var ok, bit := CheckNewField(j.fields[i]);
      if !ok {
        return -1;
      }
      keyCheck := keyCheck | bit;
      KeyBitsAppend(j.fields, i);
      MaskedUnion(KeyBits(j.fields[..i]), KeyBit(j.fields[i].key), ALL_NEW_KEYS_SET);
    }
    assert j.fields[..|j.fields|] == j.fields;
    NewKeysSet(j.fields);
    ret := if keyCheck != ALL_NEW_KEYS_SET then -1 else 0;
  }

  // ---- Credentials in and out of text --------------------------------------------------------------------

  /** Decoding the text in a block of exactly its decoded length gets past its end. */
  ghost predicate LeavesBlock(text: string) {
    DecodedLength(text) > 0 && Base64Codec.Reach(Base64Codec.GoodPrefix(text)) > DecodedLength(text)
  }

  /** Of the texts that the save writes, those do whose data are no multiple of three; they change nothing there. */
  lemma EncodedLeavesBlock(data: seq<Byte>, before: seq<Byte>, i: nat)
    requires data != [] && |data| <= i < |before|
    ensures var text := Encode(data);
            && (LeavesBlock(text) <==> |data| % 3 != 0)
            && Base64Codec.Merged(before, |data|, Values(text[..FirstPad(text)]))[i] == before[i]
  {
    EncodedShape(data);
    Base64Codec.EncodedTextReach(data);
    Base64Codec.EncodedTextLeavesTheRest(data, before, |data|, i);
  }

  /**
   * Length query, allocation of a block of that length, decoding; nothing when either call fails. The array is
   * the block and what the decoder can reach behind it; `outside` tells whether it does.
   */
  method BinaryFromJson(j: Json, key: string) returns (data: Option<seq<Byte>>, outside: bool)
    ensures data == BinaryField(j, key)
    ensures outside <==> GetString(j, key).Some? && LeavesBlock(GetString(j, key).value)
  {
    outside := false;
    var text := GetString(j, key);
    if text.None? {
      return None, outside;
    }
    if 0 < DecodedLength(text.value) {
      Base64Codec.SucceedsExactlyWhenDecodable(text.value);
      Base64Codec.ReachPastTheData(text.value, Base64Codec.GoodPrefix(text.value));
    }
    var status, length, reach := Base64Codec.Decode(text.value, null, 0);
    if status != Base64Codec.ERR_NONE {
      return None, outside;
    }
    var buffer := new Byte[length + Base64Codec.OVERHANG];
    ghost var before := buffer[..];
    status, length, reach := Base64Codec.Decode(text.value, buffer, length);
    outside := reach > length;
    if status != Base64Codec.ERR_NONE {
      return None, outside;
    }
    Base64Codec.DecodedIntoBuffer(text.value, before, length);
    data := Some(buffer[..length]);
  }

  /**
   * Encodes into a cleared scratch buffer; the text is what precedes the terminator. The encoder's static byte
   * holds whatever earlier calls left in it. When the terminator is written behind the buffer, the text goes on
   * with what stands there by the time it is read.
   */
  method EncodeField(data: seq<Byte>) returns (ret: int, text: string, inside: bool)
    ensures ret == if PassesCheck(data) then Base64Codec.ERR_NONE else Base64Codec.ERR_STR_SIZE
    ensures inside <==> !Spills(data)
    ensures ret == Base64Codec.ERR_NONE ==> Encode(data) <= text && (inside ==> text == Encode(data))
  {
    var left: Byte := *;
    var codec := new Base64Codec.Codec(left);
    var buffer := new char[CREDENTIALS_MAX_SIZE](_ => '\0');
    var length;
    ret, length, inside := codec.Encode(data, buffer, CREDENTIALS_MAX_SIZE);
    if ret != Base64Codec.ERR_NONE {
      return ret, "", inside;
    }
    text := buffer[..length];
    if !inside {
      var behind: string := *;
      text := text + behind;
    }
  }
}
