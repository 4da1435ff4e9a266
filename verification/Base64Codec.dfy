/** The byte-wise streaming encoder and the in-place decoder, proved against the bit strings of Base64. */
module Base64Codec {
  import opened Base64

  const ERR_NONE: int := 0
  const ERR_STR_SIZE: int := -1
  const ERR_INV_CHAR: int := -2
  const ERR_BUF_SIZE: int := -3
  const ERR_ARG: int := -4

  // ---- How groups lie across bytes -----------------------------------------------------------------------

  function ByteOrZero(data: seq<Byte>, i: nat): Byte {
    if i < |data| then data[i] else 0
  }

  lemma DataBitOfByte(data: seq<Byte>, i: nat, t: nat)
    requires t < 8
    ensures DataBit(data, 8 * i + t) == Bits(ByteOrZero(data, i))[t]
  {
    assert (8 * i + t) / 8 == i && (8 * i + t) % 8 == t;
  }

  /** Bit t of the j-th group, when the group starts at bit `from` of byte i. */
  lemma WindowBit(data: seq<Byte>, j: nat, i: nat, from: nat, t: nat)
    requires t < 6 && from < 8 && 6 * j == 8 * i + from
    ensures DataWindow(data, j)[t]
         == if from + t < 8 then Bits(ByteOrZero(data, i))[from + t] else Bits(ByteOrZero(data, i + 1))[from + t - 8]
  {
    if from + t < 8 {
      DataBitOfByte(data, i, from + t);
    } else {
      DataBitOfByte(data, i + 1, from + t - 8);
    }
  }

  lemma WindowAcross(data: seq<Byte>, j: nat, i: nat, from: nat)
    requires from < 8 && 6 * j == 8 * i + from
    ensures DataWindow(data, j) == (Bits(ByteOrZero(data, i)) + Bits(ByteOrZero(data, i + 1)))[from..from + 6]
  {
    forall t: nat | t < 6
      ensures DataWindow(data, j)[t] == (Bits(ByteOrZero(data, i)) + Bits(ByteOrZero(data, i + 1)))[from..from + 6][t]
    {
      WindowBit(data, j, i, from, t);
    }
  }

  // The mask-and-shift expressions of the encoder are the six-bit groups.

  lemma PackFirst(x: Byte, y: Byte)
    ensures Pack6((Bits(x) + Bits(y))[0..6]) == (x & 0xfc) >> 2
  {
  }

  lemma PackSecond(x: Byte, y: Byte)
    ensures Pack6((Bits(x) + Bits(y))[6..12]) == ((x & 0x03) << 4) + ((y & 0xf0) >> 4)
  {
  }

  lemma PackThird(y: Byte, z: Byte)
    ensures Pack6((Bits(y) + Bits(z))[4..10]) == ((y & 0x0f) << 2) + ((z & 0xc0) >> 6)
  {
  }

  lemma PackFourth(z: Byte, w: Byte)
    ensures Pack6((Bits(z) + Bits(w))[2..8]) == z & 0x3f
  {
  }

  lemma FirstGroup(data: seq<Byte>, k: nat)
    ensures Group(data, 4 * k) == (ByteOrZero(data, 3 * k) & 0xfc) >> 2
  {
    WindowAcross(data, 4 * k, 3 * k, 0);
    PackFirst(ByteOrZero(data, 3 * k), ByteOrZero(data, 3 * k + 1));
  }

  lemma SecondGroup(data: seq<Byte>, k: nat)
    ensures Group(data, 4 * k + 1)
         == ((ByteOrZero(data, 3 * k) & 0x03) << 4) + ((ByteOrZero(data, 3 * k + 1) & 0xf0) >> 4)
  {
    WindowAcross(data, 4 * k + 1, 3 * k, 6);
    PackSecond(ByteOrZero(data, 3 * k), ByteOrZero(data, 3 * k + 1));
  }

  lemma ThirdGroup(data: seq<Byte>, k: nat)
    ensures Group(data, 4 * k + 2)
         == ((ByteOrZero(data, 3 * k + 1) & 0x0f) << 2) + ((ByteOrZero(data, 3 * k + 2) & 0xc0) >> 6)
  {
    WindowAcross(data, 4 * k + 2, 3 * k + 1, 4);
    PackThird(ByteOrZero(data, 3 * k + 1), ByteOrZero(data, 3 * k + 2));
  }

  lemma FourthGroup(data: seq<Byte>, k: nat)
    ensures Group(data, 4 * k + 3) == ByteOrZero(data, 3 * k + 2) & 0x3f
  {
    WindowAcross(data, 4 * k + 3, 3 * k + 2, 2);
    PackFourth(ByteOrZero(data, 3 * k + 2), ByteOrZero(data, 3 * k + 3));
  }

  // ---- How one more group changes the decoded bytes ------------------------------------------------------

  /** What a group v at place r of its quantum adds to byte i, when the quantum starts at byte d. */
  function Patch(r: nat, d: nat, v: Byte, i: nat): Byte {
    if r == 0 then if i == d then v << 2 else 0
    else if r == 1 then if i == d then v >> 4 else if i == d + 1 then v << 4 else 0
    else if r == 2 then if i == d + 1 then v >> 2 else if i == d + 2 then v << 6 else 0
    else if i == d + 2 then v else 0
  }

  /** What the decoder ORs into byte i for the n-th group v. */
  function Contribution(n: nat, v: Byte, i: nat): Byte {
    Patch(n % 4, n / 4 * 3, v, i)
  }

  /** Where bit u of the n-th group lands. */
  lemma AppendedBit(groups: seq<Byte>, v: Byte, k: nat)
    ensures GroupBit(groups + [v], k)
         == if k / 6 == |groups| then Bits(v)[2 + k % 6] else GroupBit(groups, k)
  {
  }

  /** The six bits of v laid into a byte from bit `offset` on, as far as they fit. */
  function Shifted(v: Byte, offset: int): (b: seq<bool>)
    ensures |b| == 8
  {
    seq(8, t requires 0 <= t => 0 <= t - offset < 6 && Bits(v)[2 + t - offset])
  }

  lemma PackAtMinus4(v: Byte)
    requires v < 64
    ensures Pack8(Shifted(v, -4)) == v << 6
  {
    assert Shifted(v, -4) == Bits(v)[6..] + [false, false, false, false, false, false];
  }

  lemma PackAtMinus2(v: Byte)
    requires v < 64
    ensures Pack8(Shifted(v, -2)) == v << 4
  {
    assert Shifted(v, -2) == Bits(v)[4..] + [false, false, false, false];
  }

  lemma PackAt0(v: Byte)
    requires v < 64
    ensures Pack8(Shifted(v, 0)) == v << 2
  {
    assert Shifted(v, 0) == Bits(v)[2..] + [false, false];
  }

  lemma PackAt2(v: Byte)
    requires v < 64
    ensures Pack8(Shifted(v, 2)) == v
  {
    assert Shifted(v, 2) == [false, false] + Bits(v)[2..];
  }

  lemma PackAt4(v: Byte)
    requires v < 64
    ensures Pack8(Shifted(v, 4)) == v >> 2
  {
    assert Shifted(v, 4) == [false, false, false, false] + Bits(v)[2..6];
  }

  lemma PackAt6(v: Byte)
    requires v < 64
    ensures Pack8(Shifted(v, 6)) == v >> 4
  {
    assert Shifted(v, 6) == [false, false, false, false, false, false] + Bits(v)[2..4];
  }

  lemma PackOutside(v: Byte, offset: int)
    requires offset <= -6 || offset >= 8
    ensures Pack8(Shifted(v, offset)) == 0
  {
    PackOfNothing(Shifted(v, offset));
  }

  /** Where the n-th group starts, relative to byte i. */
  lemma GroupOffset(n: nat, i: nat)
    ensures var r, k := n % 4, n / 4 * 3 - i;
            6 * n - 8 * i == 8 * k + 6 * r
  {
  }

  lemma PackIsPatch(r: nat, d: nat, v: Byte, i: nat)
    requires v < 64 && r < 4
    ensures Pack8(Shifted(v, 8 * (d - i) + 6 * r)) == Patch(r, d, v, i)
  {
    if d - i <= -3 || d - i >= 1 {
      PackOutside(v, 8 * (d - i) + 6 * r);
    } else if r == 0 {
      if i == d { PackAt0(v); } else { PackOutside(v, 8 * (d - i)); }
    } else if r == 1 {
      if i == d { PackAt6(v); } else if i == d + 1 { PackAtMinus2(v); } else { PackOutside(v, -10); }
    } else if r == 2 {
      if i == d { PackOutside(v, 12); } else if i == d + 1 { PackAt4(v); } else { PackAtMinus4(v); }
    } else {
      if i == d { PackOutside(v, 18); } else if i == d + 1 { PackOutside(v, 10); } else { PackAt2(v); }
    }
  }

  lemma PackUnion(a: seq<bool>, b: seq<bool>, c: seq<bool>)
    requires |a| == |b| == |c| == 8 && forall t :: 0 <= t < 8 ==> c[t] == (a[t] || b[t])
    ensures Pack8(c) == Pack8(a) | Pack8(b)
  {
  }

  lemma AppendedWindow(groups: seq<Byte>, v: Byte, i: nat)
    ensures ByteAt(groups + [v], i) == ByteAt(groups, i) | Pack8(Shifted(v, 6 * |groups| - 8 * i))
  {
    var offset := 6 * |groups| - 8 * i;
    var before, shifted, after := GroupWindow(groups, i), Shifted(v, offset), GroupWindow(groups + [v], i);
    forall t: nat | t < 8
      ensures after[t] == (before[t] || shifted[t])
    {
      AppendedBit(groups, v, 8 * i + t);
    }
    PackUnion(before, shifted, after);
  }

  lemma AppendedByte(groups: seq<Byte>, v: Byte, i: nat)
    requires v < 64
    ensures ByteAt(groups + [v], i) == ByteAt(groups, i) | Contribution(|groups|, v, i)
  {
    AppendedWindow(groups, v, i);
    GroupOffset(|groups|, i);
    assert 6 * |groups| - 8 * i == 8 * (|groups| / 4 * 3 - i) + 6 * (|groups| % 4);
    PackIsPatch(|groups| % 4, |groups| / 4 * 3, v, i);
  }

  // ---- The encoder's three phases ------------------------------------------------------------------------

  /** How many characters are complete once d bytes have been consumed. */
  function CharsAfter(d: nat): nat {
    4 * d / 3
  }

  /** The text spells the beginning of the encoded data. */
  ghost predicate EncodedPrefix(text: string, data: seq<Byte>) {
    forall j :: 0 <= j < |text| ==> text[j] == EncodedChar(data, j)
  }

  lemma FirstPhase(data: seq<Byte>, d: nat)
    requires d < |data| && d % 3 == 0
    ensures CharsAfter(d) + 1 == CharsAfter(d + 1) <= EncodedLength(|data|)
    ensures (data[d] & 0xfc) >> 2 < 64 && Symbol((data[d] & 0xfc) >> 2) == EncodedChar(data, CharsAfter(d))
  {
    FirstGroup(data, d / 3);
    assert CharsAfter(d) == 4 * (d / 3);
  }

  lemma SecondPhase(data: seq<Byte>, d: nat)
    requires d <= |data| && d % 3 == 1
    ensures CharsAfter(d) + 1 == CharsAfter(d + 1) <= EncodedLength(|data|)
    ensures var v := ((data[d - 1] & 0x03) << 4) + ((ByteOrZero(data, d) & 0xf0) >> 4);
            v < 64 && Symbol(v) == EncodedChar(data, CharsAfter(d))
  {
    SecondGroup(data, d / 3);
    assert CharsAfter(d) == 4 * (d / 3) + 1;
  }

  lemma ThirdPhase(data: seq<Byte>, d: nat)
    requires d <= |data| && d % 3 == 2
    ensures CharsAfter(d) + 2 == CharsAfter(d + 1) <= EncodedLength(|data|)
    ensures var v := ((data[d - 1] & 0x0f) << 2) + ((ByteOrZero(data, d) & 0xc0) >> 6);
            v < 64 && Symbol(v) == EncodedChar(data, CharsAfter(d))
    ensures d < |data| ==> data[d] & 0x3f < 64 && Symbol(data[d] & 0x3f) == EncodedChar(data, CharsAfter(d) + 1)
  {
    ThirdGroup(data, d / 3);
    FourthGroup(data, d / 3);
    assert CharsAfter(d) == 4 * (d / 3) + 2;
  }

  lemma PaddingFrom(data: seq<Byte>)
    ensures forall j :: GroupCount(|data|) <= j ==> EncodedChar(data, j) == PAD
    ensures |data| % 3 != 0 ==> GroupCount(|data|) == CharsAfter(|data|) + 1
    ensures EncodedLength(|data|) == CharsAfter(|data|) + (if |data| % 3 == 0 then 0 else 4 - |data| % 3)
  {
    GroupCountPadding(|data|);
  }

  lemma TailOfOne(data: seq<Byte>)
    requires |data| % 3 == 1
    ensures var v := (data[|data| - 1] & 0x03) << 4; v < 64 && Symbol(v) == EncodedChar(data, CharsAfter(|data|))
    ensures EncodedChar(data, CharsAfter(|data|) + 1) == EncodedChar(data, CharsAfter(|data|) + 2) == PAD
    ensures EncodedLength(|data|) == CharsAfter(|data|) + 3
  {
    SecondPhase(data, |data|);
    PaddingFrom(data);
    assert ((ByteOrZero(data, |data|) & 0xf0) >> 4) == 0;
  }

  lemma TailOfTwo(data: seq<Byte>)
    requires |data| % 3 == 2
    ensures var v := (data[|data| - 1] & 0x0f) << 2; v < 64 && Symbol(v) == EncodedChar(data, CharsAfter(|data|))
    ensures EncodedChar(data, CharsAfter(|data|) + 1) == PAD
    ensures EncodedLength(|data|) == CharsAfter(|data|) + 2
  {
    ThirdPhase(data, |data|);
    PaddingFrom(data);
    assert ((ByteOrZero(data, |data|) & 0xc0) >> 6) == 0;
  }

  class Codec {
    /** The byte carried between iterations; it survives the call, as a static variable does. */
    var previousByte: Byte

    constructor (left: Byte)
      ensures previousByte == left
    {
      previousByte := left;
    }

    /**
     * An empty data sequence also stands for a null pointer. A null text asks for the length only. The size
     * check leaves out the terminator: `inside` says whether it still falls into the array. The model does not
     * follow a write outside.
     */
    method Encode(data: seq<Byte>, text: array?<char>, capacity: nat) returns (err: int, textLength: nat, inside: bool)
      requires text != null ==> capacity <= text.Length
      modifies this, text
      ensures textLength == EncodedLength(|data|)
      ensures inside <==> !(data != [] && text != null && textLength == capacity == text.Length)
      ensures err == if data != [] && text != null && capacity < textLength then ERR_STR_SIZE else ERR_NONE
      ensures data != [] && text != null && err == ERR_NONE ==>
                && text[..textLength] == Base64.Encode(data) && previousByte == data[|data| - 1]
                && (inside ==> text[textLength] == '\0')
      ensures text != null ==>
                forall j :: 0 <= j < text.Length && (err == ERR_NONE && data != [] ==> textLength < j) ==>
                  text[j] == old(text[j])
    {
      if data == [] {
        return ERR_NONE, 0, true;
      }
      textLength := EncodedLength(|data|);
      if text == null {
        return ERR_NONE, textLength, true;
      }
      if capacity < textLength {
        return ERR_STR_SIZE, textLength, true;
      }
      var b := EncodeBytes(data, text);
      b := EncodeTail(data, text, b);
      err, inside := ERR_NONE, b < text.Length;
      if inside {
        text[b] := '\0';
      }
    }

    /** The loop over the bytes. */
    method EncodeBytes(data: seq<Byte>, text: array<char>) returns (b: nat)
      requires data != [] && EncodedLength(|data|) <= text.Length
      modifies this, text
      ensures b == CharsAfter(|data|) && b <= EncodedLength(|data|)
      ensures EncodedPrefix(text[..b], data)
      ensures forall j :: b <= j < text.Length ==> text[j] == old(text[j])
      ensures previousByte == data[|data| - 1]
    {
      b := 0;
      for d := 0 to |data|
        invariant b == CharsAfter(d) && b <= EncodedLength(|data|)
        invariant EncodedPrefix(text[..b], data)
        invariant forall j :: b <= j < text.Length ==> text[j] == old(text[j])
        invariant d > 0 ==> previousByte == data[d - 1]
      {
        b := EncodeByte(data, d, text, b);
        previousByte := data[d];
      }
    }

    /** The switch on the position of the byte in its triple. */
    method EncodeByte(data: seq<Byte>, d: nat, text: array<char>, b: nat) returns (c: nat)
      requires d < |data| && EncodedLength(|data|) <= text.Length
      requires b == CharsAfter(d) && b <= text.Length
      requires EncodedPrefix(text[..b], data)
      requires d > 0 ==> previousByte == data[d - 1]
      modifies text
      ensures c == CharsAfter(d + 1) && c <= EncodedLength(|data|)
      ensures EncodedPrefix(text[..c], data)
      ensures forall j :: c <= j < text.Length ==> text[j] == old(text[j])
    {
      c := b;
      match d % 3 {
        case 2 =>
          ThirdPhase(data, d);
          c := Put(data, text, c, Symbol(((previousByte & 0x0f) << 2) + ((data[d] & 0xc0) >> 6)));
          c := Put(data, text, c, Symbol(data[d] & 0x3f));
        case 1 =>
          SecondPhase(data, d);
          c := Put(data, text, c, Symbol(((previousByte & 0x03) << 4) + ((data[d] & 0xf0) >> 4)));
        case _ =>
          FirstPhase(data, d);
          c := Put(data, text, c, Symbol((data[d] & 0xfc) >> 2));
      }
    }

    /** Stores one character at the write position and advances it. */
    method Put(ghost data: seq<Byte>, text: array<char>, b: nat, c: char) returns (next: nat)
      requires b < text.Length && EncodedPrefix(text[..b], data)
      requires c == EncodedChar(data, b)
      modifies text
      ensures next == b + 1 && EncodedPrefix(text[..next], data)
      ensures forall j :: next <= j < text.Length ==> text[j] == old(text[j])
    {
      text[b] := c;
      next := b + 1;
      assert text[..next] == old(text[..b]) + [c];
    }

    /** The last group of an unfinished triple, and the padding. */
    method EncodeTail(data: seq<Byte>, text: array<char>, b: nat) returns (c: nat)
      requires data != [] && EncodedLength(|data|) <= text.Length
      requires b == CharsAfter(|data|) && previousByte == data[|data| - 1]
      requires b <= text.Length && EncodedPrefix(text[..b], data)
      modifies text
      ensures c == EncodedLength(|data|)
      ensures EncodedPrefix(text[..c], data)
      ensures forall j :: c <= j < text.Length ==> text[j] == old(text[j])
    {
      PaddingFrom(data);
      c := b;
      if |data| % 3 == 2 {
        TailOfTwo(data);
        c := Put(data, text, c, Symbol((previousByte & 0x0f) << 2));
        c := Put(data, text, c, PAD);
      } else if |data| % 3 == 1 {
        TailOfOne(data);
        c := Put(data, text, c, Symbol((previousByte & 0x03) << 4));
        c := Put(data, text, c, PAD);
        c := Put(data, text, c, PAD);
      }
    }
  }

  // ---- The decoder ---------------------------------------------------------------------------------------

  /** The number of bytes, from the start of the buffer on, that the loop touches for n characters. */
  function Reach(n: nat): nat {
    n / 4 * 3 + n % 4
  }

  lemma ReachGrows(m: nat, n: nat)
    requires m <= n
    ensures Reach(m) <= Reach(n) <= (n + 3) / 4 * 3
  {
    assert n / 4 > m / 4 ==> n / 4 * 3 >= m / 4 * 3 + 3;
  }

  /** The number of characters read before the padding or the first foreign character stops the loop. */
  ghost function GoodPrefix(text: string): (n: nat)
    ensures n <= |text| && n <= FirstPad(text)
    ensures AllInAlphabet(text[..n])
    ensures n < FirstPad(text) ==> !InAlphabet(text[n])
  {
    if text == [] || text[0] == PAD || !InAlphabet(text[0]) then 0
    else
      var n := GoodPrefix(text[1..]) + 1;
      assert forall i :: 0 < i < n ==> text[..n][i] == text[1..][..n - 1][i - 1];
      n
  }

  /** A buffer whose first `length` bytes were cleared, with the bytes spelled by the groups ORed in. */
  ghost function Merged(before: seq<Byte>, length: nat, groups: seq<Byte>): (after: seq<Byte>)
    ensures |after| == |before|
    ensures forall i :: 0 <= i < |before| ==> after[i] == (if i < length then 0 else before[i]) | ByteAt(groups, i)
  {
    seq(|before|, i requires 0 <= i < |before| => (if i < length then 0 else before[i]) | ByteAt(groups, i))
  }

  lemma NothingBeyondGroups(groups: seq<Byte>, i: nat)
    requires 6 * |groups| <= 8 * i
    ensures ByteAt(groups, i) == 0
  {
    assert forall t :: 0 <= t < 8 ==> GroupWindow(groups, i)[t] == GroupBit(groups, 8 * i + t);
    PackOfNothing(GroupWindow(groups, i));
  }

  lemma MergedNothing(before: seq<Byte>, length: nat, after: seq<Byte>)
    requires |after| == |before|
    requires forall i :: 0 <= i < |before| ==> after[i] == if i < length then 0 else before[i]
    ensures after == Merged(before, length, [])
  {
    forall i: nat | i < |before|
      ensures ByteAt([], i) == 0
    {
      NothingBeyondGroups([], i);
    }
  }

  lemma MergedOneMoreAt(before: seq<Byte>, length: nat, groups: seq<Byte>, v: Byte, i: nat)
    requires v < 64 && Reach(|groups| + 1) <= |before| && i < |before|
    ensures Patched(Merged(before, length, groups), |groups| % 4, |groups| / 4 * 3, v)[i]
         == Merged(before, length, groups + [v])[i]
  {
    PatchedAt(Merged(before, length, groups), |groups| % 4, |groups| / 4 * 3, v, i);
    AppendedByte(groups, v, i);
    OrAssociates(if i < length then 0 else before[i], ByteAt(groups, i), Contribution(|groups|, v, i));
  }

  lemma MergedOneMore(before: seq<Byte>, length: nat, groups: seq<Byte>, v: Byte)
    requires v < 64 && Reach(|groups| + 1) <= |before|
    ensures Patched(Merged(before, length, groups), |groups| % 4, |groups| / 4 * 3, v)
         == Merged(before, length, groups + [v])
  {
    var patched := Patched(Merged(before, length, groups), |groups| % 4, |groups| / 4 * 3, v);
    var merged := Merged(before, length, groups + [v]);
    forall i: nat | i < |before|
      ensures patched[i] == merged[i]
    {
      MergedOneMoreAt(before, length, groups, v, i);
    }
    assert |patched| == |merged|;
  }

  lemma OrAssociates(x: Byte, y: Byte, z: Byte)
    ensures (x | y) | z == x | (y | z)
  {
  }

  lemma ValuesAppend(text: string, n: nat)
    requires n < |text| && AllInAlphabet(text[..n]) && InAlphabet(text[n])
    ensures AllInAlphabet(text[..n + 1]) && Values(text[..n + 1]) == Values(text[..n]) + [ValueOf(text[n])]
  {
    assert text[..n + 1] == text[..n] + [text[n]];
  }

  lemma NextReach(n: nat)
    ensures Reach(n + 1) == n / 4 * 3 + LastTouched(n % 4) + 1
    ensures (n + 1) / 4 * 3 == if n % 4 == 3 then n / 4 * 3 + 3 else n / 4 * 3
  {
  }

  lemma DecodeStep(text: string, n: nat, before: seq<Byte>, length: nat)
    requires n < |text| && AllInAlphabet(text[..n]) && InAlphabet(text[n])
    requires Reach(n + 1) <= |before|
    ensures AllInAlphabet(text[..n + 1])
    ensures Patched(Merged(before, length, Values(text[..n])), n % 4, n / 4 * 3, ValueOf(text[n]))
         == Merged(before, length, Values(text[..n + 1]))
  {
    ValuesAppend(text, n);
    MergedOneMore(before, length, Values(text[..n]), ValueOf(text[n]));
  }

  /** The position of a character in the table; 64 when it is not there. */
  method Find(c: char) returns (v: Byte)
    ensures v <= 64
    ensures v == 64 <==> !InAlphabet(c)
    ensures v < 64 ==> v == ValueOf(c)
  {
    v := 0;
    while v < 64 && Symbol(v) != c
      invariant v <= 64
      invariant forall w: Byte :: w < v ==> Symbol(w) != c
      decreases 64 - v
    {
      v := v + 1;
    }
    if v < 64 {
      ValueOfSymbol(v);
    }
  }

  method CountPadding(text: string) returns (padding: nat)
    ensures padding == Padding(text)
  {
    padding := 0;
    for i := 0 to |text|
      invariant i <= FirstPad(text)
      invariant padding == 0
    {
      if text[i] == PAD {
        padding := 1;
        if i + 1 < |text| && text[i + 1] == PAD {
          padding := 2;
        }
        break;
      }
    }
  }

  /** The last byte of its quantum that the character at place r touches. */
  function LastTouched(r: nat): nat {
    if r < 2 then r else 2
  }

  function OrAt(s: seq<Byte>, i: nat, bits: Byte): (r: seq<Byte>)
    requires i < |s|
    ensures |r| == |s|
  {
    s[i := s[i] | bits]
  }

  /** The buffer after the switch on the place r of the character in its group of four. */
  ghost function Patched(before: seq<Byte>, r: nat, d: nat, v: Byte): (after: seq<Byte>)
    requires d + LastTouched(r) < |before|
    ensures |after| == |before|
  {
    if r == 0 then OrAt(before, d, v << 2)
    else if r == 1 then OrAt(OrAt(before, d, v >> 4), d + 1, v << 4)
    else if r == 2 then OrAt(OrAt(before, d + 1, v >> 2), d + 2, v << 6)
    else OrAt(before, d + 2, v)
  }

  lemma PatchedAt0(before: seq<Byte>, r: nat, d: nat, v: Byte, i: nat)
    requires r == 0 && d < |before| && i < |before|
    ensures Patched(before, r, d, v)[i] == before[i] | Patch(r, d, v, i)
  {
  }

  lemma PatchedAt1(before: seq<Byte>, r: nat, d: nat, v: Byte, i: nat)
    requires r == 1 && d + 1 < |before| && i < |before|
    ensures Patched(before, r, d, v)[i] == before[i] | Patch(r, d, v, i)
  {
  }

  lemma PatchedAt2(before: seq<Byte>, r: nat, d: nat, v: Byte, i: nat)
    requires r == 2 && d + 2 < |before| && i < |before|
    ensures Patched(before, r, d, v)[i] == before[i] | Patch(r, d, v, i)
  {
  }

  lemma PatchedAt3(before: seq<Byte>, r: nat, d: nat, v: Byte, i: nat)
    requires r >= 3 && d + 2 < |before| && i < |before|
    ensures Patched(before, r, d, v)[i] == before[i] | Patch(r, d, v, i)
  {
  }

  lemma PatchedAt(before: seq<Byte>, r: nat, d: nat, v: Byte, i: nat)
    requires d + LastTouched(r) < |before| && i < |before|
    ensures Patched(before, r, d, v)[i] == before[i] | Patch(r, d, v, i)
  {
    if r == 0 {
      PatchedAt0(before, r, d, v, i);
    } else if r == 1 {
      PatchedAt1(before, r, d, v, i);
    } else if r == 2 {
      PatchedAt2(before, r, d, v, i);
    } else {
      PatchedAt3(before, r, d, v, i);
    }
  }

  method OrInto(data: array<Byte>, i: nat, bits: Byte)
    requires i < data.Length
    modifies data
    ensures data[..] == OrAt(old(data[..]), i, bits)
  {
    data[i] := data[i] | bits;
  }

  method MergeGroup(data: array<Byte>, r: nat, d: nat, v: Byte)
    requires d + LastTouched(r) < data.Length
    modifies data
    ensures data[..] == Patched(old(data[..]), r, d, v)
  {
    match r {
      case 0 =>
        OrInto(data, d, v << 2);
      case 1 =>
        OrInto(data, d, v >> 4);
        OrInto(data, d + 1, v << 4);
      case 2 =>
        OrInto(data, d + 1, v >> 2);
        OrInto(data, d + 2, v << 6);
      case _ =>
        OrInto(data, d + 2, v);
    }
  }

  /** The call gets as far as its loop. */
  predicate Decodes(text: string, data: array?<Byte>, length: nat) {
    data != null && 0 < DecodedLength(text) <= length
  }

  /**
   * A null buffer asks for the length only; `length` is only changed by that query. The array is a buffer of
   * `length` bytes and whatever memory behind it is looked at: `reach` says how far from its start the loop
   * gets, beyond the array when it goes outside, where the model stops following it.
   */
  method Decode(text: string, data: array?<Byte>, length: nat) returns (err: int, newLength: nat, reach: nat)
    requires data != null ==> length <= data.Length
    modifies data
    ensures newLength == if DecodedLength(text) > 0 && data == null then DecodedLength(text) else length
    ensures !Decodes(text, data, length) ==>
              && err == (if DecodedLength(text) <= 0 then ERR_ARG else if data == null then ERR_NONE else ERR_BUF_SIZE)
              && reach == 0 && (data != null ==> data[..] == old(data[..]))
    ensures Decodes(text, data, length) ==>
              if Reach(GoodPrefix(text)) > data.Length then reach > data.Length
              else
                && reach == Reach(GoodPrefix(text))
                && err == (if GoodPrefix(text) == FirstPad(text) then ERR_NONE else ERR_INV_CHAR)
                && data[..] == Merged(old(data[..]), length, Values(text[..GoodPrefix(text)]))
  {
    newLength, reach := length, 0;
    var padding := CountPadding(text);
    var needed := |text| / 4 * 3 - padding;
    if needed <= 0 {
      return ERR_ARG, newLength, reach;
    }
    if data == null {
      return ERR_NONE, needed, reach;
    }
    if length < needed {
      return ERR_BUF_SIZE, newLength, reach;
    }
    forall i | 0 <= i < length {
      data[i] := 0;
    }
    err, reach := DecodeChars(text, data, old(data[..]), length);
  }

  /** The loop over the characters. */
  method DecodeChars(text: string, data: array<Byte>, ghost before: seq<Byte>, length: nat)
    returns (err: int, reach: nat)
    requires |before| == data.Length
    requires forall i :: 0 <= i < data.Length ==> data[i] == if i < length then 0 else before[i]
    modifies data
    ensures if Reach(GoodPrefix(text)) > data.Length then reach > data.Length
            else
              && reach == Reach(GoodPrefix(text))
              && err == (if GoodPrefix(text) == FirstPad(text) then ERR_NONE else ERR_INV_CHAR)
              && data[..] == Merged(before, length, Values(text[..GoodPrefix(text)]))
  {
    MergedNothing(before, length, data[..]);
    assert Values(text[..0]) == [];
    var n, d := 0, 0;
    reach := 0;
    while n < |text|
      invariant n <= GoodPrefix(text) && AllInAlphabet(text[..n]) && d == n / 4 * 3
      invariant reach == Reach(n) <= data.Length
      invariant data[..] == Merged(before, length, Values(text[..n]))
    {
      if text[n] == PAD {
        break;
      }
      var v := Find(text[n]);
      if v == 64 {
        assert n == GoodPrefix(text);
        return ERR_INV_CHAR, reach;
      }
      NextReach(n);
      reach := d + LastTouched(n % 4) + 1;
      if reach > data.Length {
        ReachGrows(n + 1, GoodPrefix(text));
        return ERR_NONE, reach;
      }
      d := DecodeChar(text, n, v, data, d, before, length);
      n := n + 1;
    }
    assert n == GoodPrefix(text) == FirstPad(text);
    err := ERR_NONE;
  }

  /** One character: the switch, and the advance of the data index after the fourth. */
  method DecodeChar(text: string, n: nat, v: Byte, data: array<Byte>, d: nat, ghost before: seq<Byte>, length: nat)
    returns (next: nat)
    requires n < |text| && AllInAlphabet(text[..n]) && InAlphabet(text[n]) && v == ValueOf(text[n])
    requires |before| == data.Length && Reach(n + 1) <= data.Length && d == n / 4 * 3
    requires data[..] == Merged(before, length, Values(text[..n]))
    modifies data
    ensures next == (n + 1) / 4 * 3 && AllInAlphabet(text[..n + 1])
    ensures data[..] == Merged(before, length, Values(text[..n + 1]))
  {
    NextReach(n);
    DecodeStep(text, n, before, length);
    MergeGroup(data, n % 4, d, v);
    next := if n % 4 == 3 then d + 3 else d;
  }

  // ---- What callers rely on ------------------------------------------------------------------------------

  /** With room for the bytes, decoding succeeds exactly when the characters before the padding are known. */
  lemma SucceedsExactlyWhenDecodable(text: string)
    requires DecodedLength(text) > 0
    ensures GoodPrefix(text) == FirstPad(text) <==> Decodable(text)
  {
    var n, p := GoodPrefix(text), FirstPad(text);
    if n < p {
      assert text[..p][n] == text[n];
    }
  }

  /** The decoded bytes are the first DecodedLength bytes of the buffer. */
  lemma DecodedIntoBuffer(text: string, before: seq<Byte>, length: nat)
    requires Decodable(text) && DecodedLength(text) <= length <= |before|
    ensures GoodPrefix(text) == FirstPad(text)
    ensures Merged(before, length, Values(text[..FirstPad(text)]))[..DecodedLength(text)] == Base64.Decode(text)
  {
    SucceedsExactlyWhenDecodable(text);
    forall i: nat | i < DecodedLength(text)
      ensures Merged(before, length, Values(text[..FirstPad(text)]))[i] == Base64.Decode(text)[i]
    {
      ZeroOr(ByteAt(Values(text[..FirstPad(text)]), i));
    }
  }

  lemma ZeroOr(x: Byte)
    ensures 0 | x == x | 0 == x
  {
  }

  lemma MergedBeyond(before: seq<Byte>, length: nat, groups: seq<Byte>, i: nat)
    requires 6 * |groups| <= 8 * i && i < |before|
    ensures Merged(before, length, groups)[i] == if i < length then 0 else before[i]
  {
    NothingBeyondGroups(groups, i);
    ZeroOr(if i < length then 0 else before[i]);
  }

  /** Reading n characters, the loop changes nothing from the reach on, which is at most 3 * ceil(len / 4). */
  lemma BeyondReach(text: string, n: nat, before: seq<Byte>, length: nat, i: nat)
    requires n <= |text| && AllInAlphabet(text[..n])
    requires Reach(n) <= i < |before|
    ensures Merged(before, length, Values(text[..n]))[i] == if i < length then 0 else before[i]
    ensures Reach(n) <= (|text| + 3) / 4 * 3
  {
    ReachGrows(n, |text|);
    MergedBeyond(before, length, Values(text[..n]), i);
  }

  /** The most bytes that a decoding touches behind a buffer of the decoded length. */
  const OVERHANG: nat := 3

  lemma ReachPastTheData(text: string, n: nat)
    requires n <= FirstPad(text) && DecodedLength(text) > 0
    ensures Reach(n) <= DecodedLength(text) + OVERHANG
    ensures |text| % 4 == 0 ==> Reach(n) <= DecodedLength(text) + 1
  {
    ReachGrows(n, FirstPad(text));
  }

  /**
   * On a decodable text the loop leaves a buffer of exactly the decoded length if and only if the characters
   * before the padding reach further than the length says.
   */
  lemma LeavesExactBuffer(text: string)
    requires Decodable(text)
    ensures Reach(GoodPrefix(text)) > DecodedLength(text)
            <==> FirstPad(text) / 4 * 3 + FirstPad(text) % 4 > DecodedLength(text)
  {
    SucceedsExactlyWhenDecodable(text);
  }

  /** When the padding ends the text and the quanta are whole: if and only if there is padding. */
  lemma LeavesWhenPadded(text: string)
    requires Decodable(text) && |text| % 4 == 0 && FirstPad(text) + Padding(text) == |text|
    ensures Reach(GoodPrefix(text)) > DecodedLength(text) <==> Padding(text) > 0
  {
    LeavesExactBuffer(text);
    var p, padding := FirstPad(text), Padding(text);
    assert p == |text| - padding;
    ReachOfQuanta(|text|, padding);
  }

  lemma ReachOfQuanta(n: nat, padding: nat)
    requires padding <= 2 && padding <= n
    ensures n % 4 == 0 ==> (Reach(n - padding) > n / 4 * 3 - padding <==> padding > 0)
  {
    if n % 4 == 0 {
      var q := n / 4;
      assert n == 4 * q;
      assert padding > 0 ==> (n - padding) / 4 == q - 1;
    }
  }

  /** On text made by the encoder it leaves the buffer, by one byte, exactly when the data are no multiple of three. */
  lemma EncodedTextReach(data: seq<Byte>)
    requires data != []
    ensures var text := Base64.Encode(data);
            Reach(GoodPrefix(text)) == |data| + (if |data| % 3 == 0 then 0 else 1)
  {
    RoundTrip(data);
    EncodedShape(data);
    SucceedsExactlyWhenDecodable(Base64.Encode(data));
    var k := |data| / 3;
    assert |data| == 3 * k + |data| % 3;
    assert GroupCount(|data|) == 4 * k + (if |data| % 3 == 0 then 0 else |data| % 3 + 1);
  }

  const SLASHES: string := "///////"

  lemma SlashesAreOnes()
    ensures Decodable(SLASHES) && FirstPad(SLASHES) == 7 && AllInAlphabet(SLASHES)
    ensures forall j :: 0 <= j < 7 ==> Values(SLASHES)[j] == 63
  {
    TableAt(63);
    ValueOfSymbol(63);
    assert Symbol(63) == '/';
    assert forall j :: 0 <= j < 7 ==> SLASHES[j] == '/';
    assert SLASHES[..7] == SLASHES;
  }

  lemma OnesSpellOnes(groups: seq<Byte>)
    requires |groups| == 7 && forall j :: 0 <= j < 7 ==> groups[j] == 63
    ensures ByteAt(groups, 3) == 0xff
  {
    assert Bits(63) == [false, false, true, true, true, true, true, true];
    forall t: nat | t < 8
      ensures GroupWindow(groups, 3)[t]
    {
      assert GroupWindow(groups, 3)[t] == GroupBit(groups, 8 * 3 + t);
      assert GroupBit(groups, 24 + t) == Bits(63)[2 + (24 + t) % 6];
    }
    assert GroupWindow(groups, 3) == Bits(0xff);
    PackOfBits(0xff);
  }

  lemma UnpaddedLength(text: string)
    requires |text| == FirstPad(text) == 7
    ensures DecodedLength(text) == 3
  {
    assert Padding(text) == 0;
  }

  lemma OnesSpill(groups: seq<Byte>, before: seq<Byte>)
    requires |before| >= 6 && |groups| == 7 && forall j :: 0 <= j < 7 ==> groups[j] == 63
    ensures Merged(before, 3, groups)[3] == 0xff
  {
    OnesSpellOnes(groups);
    OrWithAll(before[3]);
  }

  /** Seven slashes decode to three bytes, and set all bits of the byte behind them. */
  lemma SlashesSpill(before: seq<Byte>)
    requires |before| >= 6
    ensures Decodable(SLASHES) && DecodedLength(SLASHES) == 3 && Reach(GoodPrefix(SLASHES)) == 6
    ensures Merged(before, 3, Values(SLASHES[..GoodPrefix(SLASHES)]))[3] == 0xff
  {
    SlashesAreOnes();
    UnpaddedLength(SLASHES);
    assert GoodPrefix(SLASHES) == 7 by {
      SucceedsExactlyWhenDecodable(SLASHES);
    }
    assert SLASHES[..7] == SLASHES;
    OnesSpill(Values(SLASHES), before);
  }

  lemma OrWithAll(x: Byte)
    ensures x | 0xff == 0xff
  {
  }

  /** On text made by the encoder, even the bytes the loop touches past the data keep their value. */
  lemma EncodedTextLeavesTheRest(data: seq<Byte>, before: seq<Byte>, length: nat, i: nat)
    requires data != [] && |data| <= length <= |before| && i < |before|
    ensures var text := Base64.Encode(data);
            && GoodPrefix(text) == FirstPad(text) && DecodedLength(text) == |data|
            && Merged(before, length, Values(text[..FirstPad(text)]))[i]
               == if i < |data| then data[i] else if i < length then 0 else before[i]
  {
    RoundTrip(data);
    EncodedShape(data);
    EncodedValues(data);
    SucceedsExactlyWhenDecodable(Base64.Encode(data));
    BytesOfGroups(data, Values(Base64.Encode(data)[..FirstPad(Base64.Encode(data))]), i);
    if i < |data| {
      ZeroOr(data[i]);
    } else {
      ZeroOr(if i < length then 0 else before[i]);
    }
  }
}
