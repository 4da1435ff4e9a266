/** The response object of an asynchronous transaction or subscription, and how its payload is built. */
module AsyncResponse {
  import opened Wrappers
  import opened Base64
  import Base64Codec

  // CoAP codes are class * 32 + detail; the HTTP constants are the usual ones.
  const COAP_204_CHANGED: int := 0x44
  const COAP_205_CONTENT: int := 0x45
  const COAP_404_NOT_FOUND: int := 0x84
  const HTTP_200_OK: int := 200
  const HTTP_404_NOT_FOUND: int := 404

  /** Known codes become HTTP codes, any other code c.dd becomes -(100 * c + dd). */
  function CoapToHttpStatus(status: int): int {
    if status == COAP_204_CHANGED || status == COAP_205_CONTENT then HTTP_200_OK
    else if status == COAP_404_NOT_FOUND then HTTP_404_NOT_FOUND
    else -((status / 32) % 8 * 100 + status % 32)
  }

  /** 2.04 and 2.05 are reported as 200, 4.04 as 404, and any other code c.dd as -(100 * c + dd). */
  lemma StatusTable(c: int, d: int)
    requires 0 <= c < 8 && 0 <= d < 32
    ensures CoapToHttpStatus(c * 32 + d)
            == if c == 2 && (d == 4 || d == 5) then 200 else if c == 4 && d == 4 then 404 else -(100 * c + d)
  {
    assert (c * 32 + d) / 32 == c && (c * 32 + d) % 32 == d;
  }

  /** So reported codes tell CoAP codes apart, except that both success codes are reported alike. */
  lemma StatusTellsCodesApart(a: int, b: int)
    requires 0 <= a < 256 && 0 <= b < 256
    requires CoapToHttpStatus(a) == CoapToHttpStatus(b)
    ensures a == b || {a, b} == {0x44, 0x45}
  {
    StatusTable(a / 32, a % 32);
    StatusTable(b / 32, b % 32);
  }

  class Response {
    const id: string
    var timestamp: int
    var status: int
    var payload: Option<string>

    /** A new response, or the clone of one when the identifier is copied; the payload is never copied. */
    constructor (id: string)
      ensures this.id == id && status == 0 && payload == None
    {
      this.id := id;
      timestamp, status, payload := 0, 0, None;
    }

    /**
     * Sizes the text, allocates one place more, and encodes. Neither call can fail, so the assertion of the
     * callers always holds, and the terminator has its place. No data and a null pointer are the same.
     */
    method Set(status: int, data: seq<Byte>, now: int) returns (err: int)
      modifies this
      ensures err == 0
      ensures this.timestamp == now && this.status == status && this.payload == Some(Encode(data))
    {
      this.timestamp, this.status, this.payload := now, status, None;
      var left: Byte := *;
      var codec := new Base64Codec.Codec(left);
      var ret, length, inside := codec.Encode(data, null, 0);
      if ret != Base64Codec.ERR_NONE {
        return -1;
      }
      var text := new char[length + 1](_ => '\0');
      ret, length, inside := codec.Encode(data, text, length);
      assert inside;
      if ret != Base64Codec.ERR_NONE {
        return -1;
      }
      PayloadDecodes(data);
      this.payload := Some(text[..length]);
      err := 0;
    }
  }

  /** The stored text gives the CoAP data back. */
  lemma PayloadDecodes(data: seq<Byte>)
    ensures data == [] ==> Encode(data) == ""
    ensures data != [] ==> Decodable(Encode(data)) && Decode(Encode(data)) == data
  {
    if data == [] {
      EmptyText();
    } else {
      RoundTrip(data);
    }
  }
}
