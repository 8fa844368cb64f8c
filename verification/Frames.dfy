/** Request and response envelopes. */
module Frames {
  import opened Outcomes
  import opened Bytes
  import opened Crc32
  import opened Protocol
  import opened Wire
  import opened Requests

  /** A checked body: the bytes followed by their CRC. */
  function Seal(body: seq<byte>): (frame: seq<byte>)
    ensures |frame| == |body| + CRC_BYTES && frame[..|body|] == body
  {
    body + U32Bytes(Crc(body))
  }

  function U16Of(low: byte, high: byte): nat {
    low + 256 * high
  }

  function U16Bytes(n: nat): (r: seq<byte>)
    requires n < 0x1_0000
    ensures |r| == 2 && U16Of(r[0], r[1]) == n
  {
    [n % 256, n / 256]
  }

  // ----- requests -----

  function RequestBody(op: byte, payload: seq<byte>): (body: seq<byte>)
    requires |payload| <= MAX_PAYLOAD_BYTES
    ensures |body| == REQUEST_HEADER_BYTES + |payload|
  {
    [SOF_REQUEST, PROTOCOL_VERSION, op, 0] + U16Bytes(|payload|) + payload
  }

  /** `RequestFrame.encode` of a built request. */
  function EncodeRequest(r: Request): seq<byte>
    requires r.Valid()
  {
    PayloadDecodes(r);
    Seal(RequestBody(r.Op().Code(), Payload(r)))
  }

  // ----- responses -----

  datatype Response = Response(status: Status, payload: seq<byte>) {
    predicate Encodable() {
      |payload| < 0x1_0000
    }
  }

  function ResponseBody(r: Response): (body: seq<byte>)
    requires r.Encodable()
    ensures |body| == RESPONSE_HEADER_BYTES + |r.payload|
  {
    [SOF_RESPONSE, PROTOCOL_VERSION, r.status.Code()] + U16Bytes(|r.payload|) + r.payload
  }

  function EncodeResponse(r: Response): (frame: seq<byte>)
    requires r.Encodable()
    ensures |frame| == RESPONSE_HEADER_BYTES + |r.payload| + CRC_BYTES
  {
    Seal(ResponseBody(r))
  }

  /** Why the host's decoder raises: a protocol fault, or a status byte outside the enumeration. */
  datatype DecodeError = Malformed(status: Status) | UnknownStatus

  /** `decode_response`. */
  function DecodeResponse(frame: seq<byte>): Result<Response, DecodeError> {
    if |frame| < RESPONSE_HEADER_BYTES + CRC_BYTES then Err(Malformed(BAD_LENGTH))
    else if frame[0] != SOF_RESPONSE then Err(Malformed(BAD_SOF))
    else if frame[1] != PROTOCOL_VERSION then Err(Malformed(BAD_VERSION))
    else
      var end := RESPONSE_HEADER_BYTES + U16Of(frame[3], frame[4]);
      if |frame| != end + CRC_BYTES then Err(Malformed(BAD_LENGTH))
      else if U32Of(frame[end..]) != Crc(frame[..end]) then Err(Malformed(BAD_CRC))
      else match StatusOf(frame[2])
        case Some(status) => Ok(Response(status, frame[RESPONSE_HEADER_BYTES..end]))
        case None => Err(UnknownStatus)
  }

  lemma ResponseRoundTrip(r: Response)
    requires r.Encodable()
    ensures DecodeResponse(EncodeResponse(r)) == Ok(r)
  {
    var body, frame := ResponseBody(r), EncodeResponse(r);
    U32RoundTrip(Crc(body), []);
    assert frame[|body|..] == U32Bytes(Crc(body));
    assert frame[3] == body[3] && frame[4] == body[4];
    assert frame[RESPONSE_HEADER_BYTES..|body|] == r.payload;
    StatusOfCode(r.status);
  }

  /** The decoder accepts nothing but encoded responses. */
  lemma DecodedResponseReencodes(frame: seq<byte>)
    requires DecodeResponse(frame).Ok?
    ensures DecodeResponse(frame).value.Encodable()
    ensures EncodeResponse(DecodeResponse(frame).value) == frame
  {
    var r, end := DecodeResponse(frame).value, |frame| - CRC_BYTES;
    U16Split(frame[3], frame[4]);
    HeaderSplit(frame[..end]);
    assert frame[..end][RESPONSE_HEADER_BYTES..] == r.payload;
    U32RoundTrip(0, frame[end..]);
  }

  lemma HeaderSplit(body: seq<byte>)
    requires |body| >= RESPONSE_HEADER_BYTES
    ensures body == [body[0], body[1], body[2]] + [body[3], body[4]] + body[RESPONSE_HEADER_BYTES..]
  {
  }

  lemma U16Split(low: byte, high: byte)
    ensures U16Of(low, high) < 0x1_0000 && U16Bytes(U16Of(low, high)) == [low, high]
  {
    var n := U16Of(low, high);
    assert n % 256 == low && n / 256 == high;
  }

  /** Corrupting up to four neighbouring payload bytes of a response is always noticed. */
  lemma CorruptedResponseRejected(r: Response, payload: seq<byte>, start: nat, length: nat)
    requires r.Encodable()
    requires DifferByBurst(r.payload, payload, start, length)
    ensures var body := ResponseBody(r);
            DecodeResponse(body[..RESPONSE_HEADER_BYTES] + payload + U32Bytes(Crc(body))) == Err(Malformed(BAD_CRC))
  {
    hide Crc, StatusOf, Status.Code;
    var body, other := ResponseBody(r), ResponseBody(Response(r.status, payload));
    assert other == body[..RESPONSE_HEADER_BYTES] + payload;
    var at := RESPONSE_HEADER_BYTES + start;
    HeaderKeepsBurst(body[..RESPONSE_HEADER_BYTES], r.payload, payload, start, length);
    assert body == body[..RESPONSE_HEADER_BYTES] + r.payload;
    BurstDetected(body, other, at, length);
    var frame := other + U32Bytes(Crc(body));
    assert frame[..|other|] == other && frame[|other|..] == U32Bytes(Crc(body));
    U32RoundTrip(Crc(body), []);
  }

  lemma HeaderKeepsBurst(header: seq<byte>, a: seq<byte>, b: seq<byte>, start: nat, length: nat)
    requires DifferByBurst(a, b, start, length)
    ensures DifferByBurst(header + a, header + b, |header| + start, length)
  {
    var x, y, n := header + a, header + b, |header|;
    assert x[..n + start] == header + a[..start] && y[..n + start] == header + b[..start];
    assert x[n + start + length..] == a[start + length..] && y[n + start + length..] == b[start + length..];
    assert x[n..] == a && y[n..] == b;
  }
}
