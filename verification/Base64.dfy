/**
 * Base64 as a function on bit strings (section 4 of RFC 4648): the zero-padded bits of the data, read six at
 * a time. A string is a sequence of bytes, one character each, as in C. Nothing here follows the byte-wise
 * packing of the program; Base64Codec proves that against this.
 */
module Base64 {
  type Byte = bv8

  // ---- The alphabet --------------------------------------------------------------------------------------

  const UPPER: string := "ABCDEFGHIJKLMNOPQRSTUVWXYZ"
  const LOWER: string := "abcdefghijklmnopqrstuvwxyz"
  const DIGITS: string := "0123456789"
  const TABLE: string := UPPER + LOWER + DIGITS + "+/"
  const PAD: char := '='

  lemma UpperAt(i: nat)
    requires i < 26
    ensures UPPER[i] as int == 65 + i
  {
  }

  lemma LowerAt(i: nat)
    requires i < 26
    ensures LOWER[i] as int == 97 + i
  {
  }

  lemma DigitAt(i: nat)
    requires i < 10
    ensures DIGITS[i] as int == 48 + i
  {
  }

  lemma TableAt(i: nat)
    requires i < 64
    ensures TABLE[i] as int == if i < 26 then 65 + i else if i < 52 then 71 + i else if i < 62 then i - 4
                               else if i == 62 then 43 else 47
  {
    if i < 26 {
      UpperAt(i);
    } else if i < 52 {
      LowerAt(i - 26);
    } else if i < 62 {
      DigitAt(i - 52);
    }
  }

  function Symbol(v: Byte): char
    requires v < 64
  {
    TABLE[v as int]
  }

  lemma SameNumber(v: Byte, w: Byte)
    requires v as int == w as int
    ensures v == w
  {
    assert v == (v as int) as Byte == (w as int) as Byte;
  }

  lemma SymbolInjective(v: Byte, w: Byte)
    requires v < 64 && w < 64 && Symbol(v) == Symbol(w)
    ensures v == w
  {
    TableAt(v as int);
    TableAt(w as int);
    SameNumber(v, w);
  }

  lemma SymbolIsNotPad(v: Byte)
    requires v < 64
    ensures Symbol(v) != PAD && Symbol(v) != '\0'
  {
    TableAt(v as int);
  }

  ghost predicate InAlphabet(c: char) {
    exists v: Byte :: v < 64 && Symbol(v) == c
  }

  ghost function ValueOf(c: char): (v: Byte)
    requires InAlphabet(c)
    ensures v < 64 && Symbol(v) == c
  {
    var v: Byte :| v < 64 && Symbol(v) == c;
    v
  }

  lemma ValueOfSymbol(v: Byte)
    requires v < 64
    ensures InAlphabet(Symbol(v)) && ValueOf(Symbol(v)) == v
  {
    SymbolInjective(v, ValueOf(Symbol(v)));
  }

  lemma SixBits(i: nat) returns (v: Byte)
    requires i < 64
    ensures v < 64 && v as int == i
  {
    v := i as Byte;
  }

  /** The alphabet has the letters, the digits, '+' and '/'. */
  lemma AlphabetIs(c: char)
    ensures InAlphabet(c) <==> 'A' <= c <= 'Z' || 'a' <= c <= 'z' || '0' <= c <= '9' || c == '+' || c == '/'
  {
    if v: Byte :| v < 64 && Symbol(v) == c {
      TableAt(v as int);
    }
    if 'A' <= c <= 'Z' || 'a' <= c <= 'z' || '0' <= c <= '9' || c == '+' || c == '/' {
      var i := if 'A' <= c <= 'Z' then c as int - 65 else if 'a' <= c <= 'z' then c as int - 71
               else if '0' <= c <= '9' then c as int + 4 else if c == '+' then 62 else 63;
      TableAt(i);
      var v := SixBits(i);
      assert Symbol(v) == c;
    }
  }

  // ---- Bits ----------------------------------------------------------------------------------------------

  /** The bits of a byte, the most significant one first. */
  function Bits(x: Byte): (b: seq<bool>)
    ensures |b| == 8
  {
    [x & 0x80 != 0, x & 0x40 != 0, x & 0x20 != 0, x & 0x10 != 0,
     x & 0x08 != 0, x & 0x04 != 0, x & 0x02 != 0, x & 0x01 != 0]
  }

  function Pack8(b: seq<bool>): Byte
    requires |b| == 8
  {
    (if b[0] then 0x80 else 0) | (if b[1] then 0x40 else 0) | (if b[2] then 0x20 else 0) |
    (if b[3] then 0x10 else 0) | (if b[4] then 0x08 else 0) | (if b[5] then 0x04 else 0) |
    (if b[6] then 0x02 else 0) | (if b[7] then 0x01 else 0)
  }

  function Pack6(b: seq<bool>): (v: Byte)
    requires |b| == 6
    ensures v < 64
  {
    (if b[0] then 0x20 else 0) | (if b[1] then 0x10 else 0) | (if b[2] then 0x08 else 0) |
    (if b[3] then 0x04 else 0) | (if b[4] then 0x02 else 0) | (if b[5] then 0x01 else 0)
  }

  /** Bit k of the data seen as one bit string, zero beyond its end. */
  function DataBit(data: seq<Byte>, k: nat): bool {
    k / 8 < |data| && Bits(data[k / 8])[k % 8]
  }

  /** Bit k of the concatenated six-bit groups, zero beyond their end. */
  function GroupBit(groups: seq<Byte>, k: nat): bool {
    k / 6 < |groups| && Bits(groups[k / 6])[2 + k % 6]
  }

  function DataWindow(data: seq<Byte>, j: nat): (b: seq<bool>)
    ensures |b| == 6
  {
    seq(6, t requires 0 <= t => DataBit(data, 6 * j + t))
  }

  function GroupWindow(groups: seq<Byte>, i: nat): (b: seq<bool>)
    ensures |b| == 8
  {
    seq(8, t requires 0 <= t => GroupBit(groups, 8 * i + t))
  }

  /** The j-th six-bit group of the data. */
  function Group(data: seq<Byte>, j: nat): (v: Byte)
    ensures v < 64
  {
    Pack6(DataWindow(data, j))
  }

  /** The i-th byte spelled by six-bit groups. */
  function ByteAt(groups: seq<Byte>, i: nat): Byte {
    Pack8(GroupWindow(groups, i))
  }

  // ---- Encoding ------------------------------------------------------------------------------------------

  /** The number of characters before the padding: enough six-bit groups to cover n bytes. */
  function GroupCount(n: nat): nat {
    (8 * n + 5) / 6
  }

  function EncodedLength(n: nat): nat {
    (n + 2) / 3 * 4
  }

  function EncodedChar(data: seq<Byte>, j: nat): char {
    if j < GroupCount(|data|) then Symbol(Group(data, j)) else PAD
  }

  function Encode(data: seq<Byte>): string {
    seq(EncodedLength(|data|), j requires 0 <= j => EncodedChar(data, j))
  }

  // ---- Decoding ------------------------------------------------------------------------------------------

  /** The position of the first padding character, or the length of the text. */
  function FirstPad(text: string): (p: nat)
    ensures p <= |text| && (p < |text| ==> text[p] == PAD)
    ensures forall i :: 0 <= i < p ==> text[i] != PAD
  {
    if text == [] || text[0] == PAD then 0 else FirstPad(text[1..]) + 1
  }

  function Padding(text: string): nat {
    var p := FirstPad(text);
    if p == |text| then 0 else if p + 1 < |text| && text[p + 1] == PAD then 2 else 1
  }

  /** What the length query reports; not positive for the texts the decoder refuses. */
  function DecodedLength(text: string): int {
    |text| / 4 * 3 - Padding(text)
  }

  /** Three bytes for every four characters, less one for a '=' and less two when the first '=' has one behind it. */
  lemma DecodedLengthMeans(text: string, p: nat)
    requires p <= |text| && (forall i :: 0 <= i < p ==> text[i] != '=') && (p < |text| ==> text[p] == '=')
    ensures DecodedLength(text)
         == |text| / 4 * 3 - if p == |text| then 0 else if p + 1 < |text| && text[p + 1] == '=' then 2 else 1
  {
    assert FirstPad(text) == p;
  }

  ghost predicate AllInAlphabet(text: string) {
    forall i :: 0 <= i < |text| ==> InAlphabet(text[i])
  }

  ghost function Values(text: string): (groups: seq<Byte>)
    requires AllInAlphabet(text)
    ensures |groups| == |text|
    ensures forall j :: 0 <= j < |text| ==> groups[j] == ValueOf(text[j])
  {
    seq(|text|, j requires 0 <= j < |text| => ValueOf(text[j]))
  }

  /** Non-empty, and made of alphabet characters up to the padding. */
  ghost predicate Decodable(text: string) {
    DecodedLength(text) > 0 && AllInAlphabet(text[..FirstPad(text)])
  }

  ghost function Decode(text: string): (data: seq<Byte>)
    requires Decodable(text)
    ensures |data| == DecodedLength(text)
  {
    seq(DecodedLength(text), i requires 0 <= i => ByteAt(Values(text[..FirstPad(text)]), i))
  }

  // ---- The round trip ------------------------------------------------------------------------------------

  lemma GroupCountPadding(n: nat)
    ensures GroupCount(n) == EncodedLength(n) - (3 - n % 3) % 3
    ensures EncodedLength(n) / 4 * 3 == n + (3 - n % 3) % 3
  {
    var k, r := n / 3, n % 3;
    assert n == 3 * k + r;
    assert r == 0 ==> (n + 2) / 3 == k;
    assert r != 0 ==> (n + 2) / 3 == k + 1;
    assert 8 * n + 5 == 6 * (4 * k) + 8 * r + 5;
  }

  /** Padding fills exactly the last (3 - n mod 3) mod 3 places, and the length query gives back n. */
  lemma EncodedShape(data: seq<Byte>)
    ensures |Encode(data)| == EncodedLength(|data|)
    ensures FirstPad(Encode(data)) == GroupCount(|data|) == EncodedLength(|data|) - (3 - |data| % 3) % 3
    ensures forall j :: GroupCount(|data|) <= j < |Encode(data)| ==> Encode(data)[j] == PAD
    ensures DecodedLength(Encode(data)) == |data|
  {
    var text, m := Encode(data), GroupCount(|data|);
    GroupCountPadding(|data|);
    forall j: nat | j < m
      ensures text[j] != PAD
    {
      SymbolIsNotPad(Group(data, j));
    }
    assert m < |text| ==> text[m] == PAD;
  }

  ghost predicate AreGroups(data: seq<Byte>, groups: seq<Byte>) {
    |groups| == GroupCount(|data|) && forall j :: 0 <= j < |groups| ==> groups[j] == Group(data, j)
  }

  lemma EncodedValues(data: seq<Byte>)
    ensures var text := Encode(data)[..FirstPad(Encode(data))]; AllInAlphabet(text) && AreGroups(data, Values(text))
  {
    EncodedShape(data);
    forall j: nat | j < GroupCount(|data|)
      ensures InAlphabet(Encode(data)[j]) && ValueOf(Encode(data)[j]) == Group(data, j)
    {
      ValueOfSymbol(Group(data, j));
    }
  }

  lemma BitsOfPack6(b: seq<bool>)
    requires |b| == 6
    ensures Bits(Pack6(b))[2..] == b
  {
  }

  lemma PackOfBits(x: Byte)
    ensures Pack8(Bits(x)) == x
  {
  }

  lemma PackOfNothing(b: seq<bool>)
    requires |b| == 8 && forall t :: 0 <= t < 8 ==> !b[t]
    ensures Pack8(b) == 0
  {
  }

  lemma BitOfGroup(data: seq<Byte>, j: nat, t: nat)
    requires t < 6
    ensures Bits(Group(data, j))[2 + t] == DataBit(data, 6 * j + t)
  {
    BitsOfPack6(DataWindow(data, j));
    assert Bits(Group(data, j))[2..][t] == DataWindow(data, j)[t];
  }

  /** The two bit strings agree. */
  lemma GroupBitOfGroups(data: seq<Byte>, groups: seq<Byte>, k: nat)
    requires AreGroups(data, groups)
    ensures GroupBit(groups, k) == DataBit(data, k)
  {
    if k / 6 < |groups| {
      BitOfGroup(data, k / 6, k % 6);
    }
  }

  /** The bytes spelled by the groups of the data are the data, followed by zeros. */
  lemma BytesOfGroups(data: seq<Byte>, groups: seq<Byte>, i: nat)
    requires AreGroups(data, groups)
    ensures ByteAt(groups, i) == if i < |data| then data[i] else 0
  {
    var window := GroupWindow(groups, i);
    forall t: nat | t < 8
      ensures window[t] == (i < |data| && Bits(data[i])[t])
    {
      GroupBitOfGroups(data, groups, 8 * i + t);
      assert (8 * i + t) / 8 == i && (8 * i + t) % 8 == t;
    }
    if i < |data| {
      assert window == Bits(data[i]);
      PackOfBits(data[i]);
    } else {
      PackOfNothing(window);
    }
  }

  /** Section 4 of RFC 4648: decoding what was encoded gives the data back. */
  lemma RoundTrip(data: seq<Byte>)
    requires data != []
    ensures Decodable(Encode(data)) && Decode(Encode(data)) == data
  {
    EncodedShape(data);
    EncodedValues(data);
    var groups := Values(Encode(data)[..FirstPad(Encode(data))]);
    forall i: nat | i < |data|
      ensures ByteAt(groups, i) == data[i]
    {
      BytesOfGroups(data, groups, i);
    }
  }

  /** The empty data encode as the empty text, which the decoder refuses. */
  lemma EmptyText()
    ensures Encode([]) == "" && DecodedLength("") == 0
  {
  }
}
