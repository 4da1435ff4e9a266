/** Credentials for newly posted devices: the pure side of what rest_utils.c draws from the random source. */
module Credentials {
  import opened Wrappers
  import opened Base64
  import opened Devices

  const PSK_ID_LENGTH: nat := 12
  const PSK_LENGTH: nat := 16
  const SERIAL_LENGTH: nat := 20

  // ---- Pre-shared key identifiers ------------------------------------------------------------------------

  /** The ASCII code of an upper-case hexadecimal digit. */
  function HexDigit(nibble: Byte): (digit: Byte)
    requires nibble < 16
  {
    if nibble < 10 then 0x30 + nibble else 0x37 + nibble
  }

  function HighDigit(b: Byte): Byte {
    HexDigit((b >> 4) & 0x0f)
  }

  function LowDigit(b: Byte): Byte {
    HexDigit(b & 0x0f)
  }

  function Hex(binary: seq<Byte>): (digits: seq<Byte>)
    ensures |digits| == 2 * |binary|
  {
    seq(2 * |binary|, i requires 0 <= i < 2 * |binary| =>
      if i % 2 == 0 then HighDigit(binary[i / 2]) else LowDigit(binary[i / 2]))
  }

  const HEX_DIGITS: string := "0123456789ABCDEF"

  lemma HexDigitAt(nibble: Byte)
    requires nibble < 16
    ensures HexDigit(nibble) as int == HEX_DIGITS[nibble as int] as int
  {
  }

  lemma NibblesOfByte(b: Byte)
    ensures ((b >> 4) & 0x0f) as int == b as int / 16
    ensures (b & 0x0f) as int == b as int % 16
  {
  }

  /** A byte is written as two upper-case digits, the more significant one first. */
  lemma DigitsOfByte(b: Byte)
    ensures HighDigit(b) as int == HEX_DIGITS[b as int / 16] as int
    ensures LowDigit(b) as int == HEX_DIGITS[b as int % 16] as int
  {
    NibblesOfByte(b);
    HexDigitAt((b >> 4) & 0x0f);
    HexDigitAt(b & 0x0f);
  }

  /** Two places of the text hold the digits of the byte. */
  ghost predicate SpellsAt(text: seq<Byte>, i: nat, b: Byte)
    requires 2 * i + 1 < |text|
  {
    && text[2 * i] as int == "0123456789ABCDEF"[b as int / 16] as int
    && text[2 * i + 1] as int == "0123456789ABCDEF"[b as int % 16] as int
  }

  /** The identifier is the hexadecimal notation of the draw, place by place. */
  lemma HexSpells(binary: seq<Byte>, text: seq<Byte>)
    requires text == Hex(binary)
    ensures |text| == 2 * |binary| && forall i: nat :: i < |binary| ==> SpellsAt(text, i, binary[i])
  {
    forall i: nat | i < |binary|
      ensures SpellsAt(text, i, binary[i])
    {
      assert text[2 * i] == HighDigit(binary[i]) && text[2 * i + 1] == LowDigit(binary[i]);
      DigitsOfByte(binary[i]);
    }
  }

  lemma DigitsInjective(b: Byte, c: Byte)
    requires HighDigit(b) == HighDigit(c) && LowDigit(b) == LowDigit(c)
    ensures b == c
  {
  }

  /** Two draws give the same identifier only when they are the same draw. */
  lemma HexInjective(a: seq<Byte>, b: seq<Byte>)
    requires Hex(a) == Hex(b)
    ensures a == b
  {
    assert |a| == |b|;
    forall i: nat | i < |a|
      ensures a[i] == b[i]
    {
      assert Hex(a)[2 * i] == HighDigit(a[i]) && Hex(b)[2 * i] == HighDigit(b[i]);
      assert Hex(a)[2 * i + 1] == LowDigit(a[i]) && Hex(b)[2 * i + 1] == LowDigit(b[i]);
      DigitsInjective(a[i], b[i]);
    }
  }

  // ---- Certificate serial numbers ------------------------------------------------------------------------

  predicate SerialTaken(devices: seq<Device>, serial: seq<Byte>) {
    exists i :: 0 <= i < |devices| && devices[i].serial == serial
  }

  /** The draw with its top bit cleared, so that the number is positive. */
  function Positive(draw: seq<Byte>): seq<Byte>
    requires draw != []
  {
    draw[0 := draw[0] & 0x7f]
  }

  predicate SerialDraws(draws: seq<seq<Byte>>) {
    forall i :: 0 <= i < |draws| ==> |draws[i]| == SERIAL_LENGTH
  }

  ghost predicate SomeDrawIsFresh(devices: seq<Device>, draws: seq<seq<Byte>>)
    requires SerialDraws(draws)
  {
    exists i :: 0 <= i < |draws| && !SerialTaken(devices, Positive(draws[i]))
  }

  /** The first draw that is not in use; the random source is assumed to yield one. */
  function FreshIndex(devices: seq<Device>, draws: seq<seq<Byte>>): (k: nat)
    requires SerialDraws(draws) && SomeDrawIsFresh(devices, draws)
    ensures k < |draws| && !SerialTaken(devices, Positive(draws[k]))
    ensures forall i :: 0 <= i < k ==> SerialTaken(devices, Positive(draws[i]))
  {
    if !SerialTaken(devices, Positive(draws[0])) then 0
    else
      assert SomeDrawIsFresh(devices, draws[1..]) by {
        var i :| 0 <= i < |draws| && !SerialTaken(devices, Positive(draws[i]));
        assert draws[1..][i - 1] == draws[i];
      }
      FreshIndex(devices, draws[1..]) + 1
  }

  lemma FreshIndexIs(devices: seq<Device>, draws: seq<seq<Byte>>, k: nat)
    requires SerialDraws(draws) && SomeDrawIsFresh(devices, draws)
    requires k <= FreshIndex(devices, draws) && !SerialTaken(devices, Positive(draws[k]))
    ensures k == FreshIndex(devices, draws)
  {
  }

  function FirstFresh(devices: seq<Device>, draws: seq<seq<Byte>>): (serial: seq<Byte>)
    requires SerialDraws(draws) && SomeDrawIsFresh(devices, draws)
    ensures |serial| == SERIAL_LENGTH && serial[0] & 0x80 == 0 && !SerialTaken(devices, serial)
  {
    Positive(draws[FreshIndex(devices, draws)])
  }

  /** It is the first draw, its top bit cleared, that is no device's serial number. */
  lemma FirstFreshIsFirst(devices: seq<Device>, draws: seq<seq<Byte>>)
    requires SerialDraws(draws) && SomeDrawIsFresh(devices, draws)
    ensures exists k :: 0 <= k < |draws| && FirstFresh(devices, draws) == draws[k][0 := draws[k][0] & 0x7f]
              && (forall d :: d in devices ==> d.serial != FirstFresh(devices, draws))
              && forall i :: 0 <= i < k ==> exists d :: d in devices && d.serial == draws[i][0 := draws[i][0] & 0x7f]
  {
    var k := FreshIndex(devices, draws);
    assert FirstFresh(devices, draws) == draws[k][0 := draws[k][0] & 0x7f];
    forall i | 0 <= i < k
      ensures exists d :: d in devices && d.serial == draws[i][0 := draws[i][0] & 0x7f]
    {
      var j :| 0 <= j < |devices| && devices[j].serial == Positive(draws[i]);
      assert devices[j] in devices;
    }
  }

  // ---- A new device --------------------------------------------------------------------------------------

  /**
   * What the random source, the certificate library and the file system answer during one POST. A missing
   * certificate stands for any failure to make one; the pair holds the certificate and its private key. A
   * missing server key stands for a certificate file that cannot be read or is too large.
   */
  datatype Entropy = Entropy(uuid: string, pskId: seq<Byte>, psk: seq<Byte>, draws: seq<seq<Byte>>,
                             certificate: Option<(seq<Byte>, seq<Byte>)>, serverKey: Option<string>)

  /** The assumptions about those answers. */
  ghost predicate GoodEntropy(devices: seq<Device>, e: Entropy) {
    && (forall i :: 0 <= i < |devices| ==> devices[i].uuid != e.uuid)
    && |e.pskId| == PSK_ID_LENGTH / 2 && |e.psk| == PSK_LENGTH
    && SerialDraws(e.draws)
    && SomeDrawIsFresh(devices, e.draws)
    && (e.certificate.Some? ==> e.certificate.value.0 != [] && e.certificate.value.1 != [])
  }

  function NewDevice(devices: seq<Device>, mode: Mode, name: string, e: Entropy): Option<Device>
    requires GoodEntropy(devices, e)
  {
    match mode
    case Undefined => None
    case Psk => Some(Device(e.uuid, name, Psk, Hex(e.pskId), e.psk, []))
    case Cert =>
      if e.certificate.None? then None
      else Some(Device(e.uuid, name, Cert, e.certificate.value.0, e.certificate.value.1, FirstFresh(devices, e.draws)))
    case NoCredentials => Some(Device(e.uuid, name, NoCredentials, [], [], []))
  }

  /** The device as it is kept: the private key of a certificate is handed out and forgotten. */
  function Kept(d: Device): Device {
    if d.mode == Cert then d.(secretKey := []) else d
  }
}
