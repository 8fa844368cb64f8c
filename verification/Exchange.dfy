/** Driving one whole request frame: the byte lane delivers exactly the request that
    was built, and a damaged payload is refused. */
module Exchange {
  import opened Bytes
  import opened Crc32
  import opened Protocol
  import opened Wire
  import opened Requests
  import opened Frames
  import opened Endpoint
  import opened Lane

  // ----- what the endpoint reads out of a built frame -----

  lemma BodyShape(op: byte, payload: seq<byte>)
    requires |payload| <= MAX_PAYLOAD_BYTES
    ensures var body := RequestBody(op, payload);
            && body[0] == SOF_REQUEST && body[1] == PROTOCOL_VERSION && body[2] == op && body[3] == 0
            && U16Of(body[4], body[5]) == |payload|
            && body[REQUEST_HEADER_BYTES..] == payload
  {
  }

  lemma SealOpens(body: seq<byte>, crc: u32)
    ensures var frame := body + U32Bytes(crc);
            frame[..|body|] == body && U32Of(frame[|body|..]) == crc
  {
    U32RoundTrip(crc, []);
    assert (body + U32Bytes(crc))[|body|..] == U32Bytes(crc);
  }

  /** A built request survives framing, the CRC check and payload decoding. */
  lemma EncodedRequestInspects(r: Request)
    requires r.Valid()
    ensures var frame := EncodeRequest(r);
            && frame[0] == SOF_REQUEST && IsWholeFrame(frame)
            && |frame| == REQUEST_HEADER_BYTES + r.Op().PayloadBytes() + CRC_BYTES
            && Inspect(frame) == GoodRequest(r)
  {
    PayloadDecodes(r);
    OpcodeOfCode(r.Op());
    hide Crc, Payload, DecodePayload, Opcode.PayloadBytes, OpcodeOf, Request.Valid, U32Of;
    var payload := Payload(r);
    var body := RequestBody(r.Op().Code(), payload);
    BodyShape(r.Op().Code(), payload);
    SealOpens(body, Crc(body));
    var frame := EncodeRequest(r);
    assert frame == body + U32Bytes(Crc(body));
    assert frame[REQUEST_HEADER_BYTES..|body|] == body[REQUEST_HEADER_BYTES..];
  }

  /** Corrupting up to four neighbouring payload bytes of a request never gets past the CRC check. */
  lemma CorruptedRequestRejected(r: Request, payload: seq<byte>, start: nat, length: nat)
    requires r.Valid() && DifferByBurst(Payload(r), payload, start, length)
    ensures |Payload(r)| <= MAX_PAYLOAD_BYTES
    ensures var body := RequestBody(r.Op().Code(), Payload(r));
            var frame := body[..REQUEST_HEADER_BYTES] + payload + U32Bytes(Crc(body));
            IsWholeFrame(frame) && Inspect(frame) == BadFrame(BAD_CRC, 0, 0)
  {
    hide Crc, Payload, DecodePayload, Opcode.PayloadBytes, OpcodeOf, Request.Valid, U32Of, InspectPayload, Opcode.Code, Request.Op;
    PayloadDecodes(r);
    PayloadLimit(r.Op());
    var code := r.Op().Code();
    var body, other := RequestBody(code, Payload(r)), RequestBody(code, payload);
    assert other == body[..REQUEST_HEADER_BYTES] + payload;
    assert body == body[..REQUEST_HEADER_BYTES] + Payload(r);
    HeaderKeepsBurst(body[..REQUEST_HEADER_BYTES], Payload(r), payload, start, length);
    BurstDetected(body, other, REQUEST_HEADER_BYTES + start, length);
    BodyShape(code, payload);
    SealOpens(other, Crc(body));
  }

  // ----- feeding a whole frame -----

  /** The endpoint after the first `k` bytes of `frame`, with nothing pending. */
  function Receiving(e: State, frame: seq<byte>, k: nat): State
    requires k <= |frame|
  {
    e.(rx := frame[..k], tx := [], done := false, expected := if k < REQUEST_HEADER_BYTES then 0 else |frame|)
  }

  predicate IsBoundedFrame(frame: seq<byte>) {
    IsWholeFrame(frame) && frame[0] == SOF_REQUEST && U16Of(frame[4], frame[5]) <= MAX_PAYLOAD_BYTES
  }

  lemma ReceivingValid(e: State, frame: seq<byte>, k: nat)
    requires e.Valid() && IsBoundedFrame(frame) && 0 < k < |frame|
    ensures Receiving(e, frame, k).Valid()
  {
    hide ResultPayload;
  }

  lemma ReceivingAccepts(e: State, frame: seq<byte>, k: nat)
    requires e.Valid() && IsBoundedFrame(frame) && 0 < k < |frame| - 1
    ensures Receiving(e, frame, k).Valid()
    ensures Accept(Receiving(e, frame, k), frame[k]) == Receiving(e, frame, k + 1)
  {
    ReceivingValid(e, frame, k);
    hide Dispatch, ResultPayload, State.Valid;
    assert frame[..k] + [frame[k]] == frame[..k + 1];
  }

  lemma {:induction false} FeedRest(e: State, frame: seq<byte>, k: nat)
    requires e.Valid() && IsBoundedFrame(frame) && 0 < k < |frame|
    ensures Receiving(e, frame, k).Valid() && Receiving(e, frame, 0).Valid()
    ensures var answered := Dispatch(Receiving(e, frame, 0), frame);
            && Feed(Receiving(e, frame, k), frame[k..]) == Drained(answered)
            && WholeResponse(Receiving(e, frame, k), frame[k..]) == answered.tx
    decreases |frame| - k
  {
    hide Accept, Dispatch, State.Valid, Feed, WholeResponse, IsWholeFrame, Responses;
    ReceivingValid(e, frame, k);
    StartValid(e, frame);
    var s, rest := Receiving(e, frame, k), frame[k..];
    FeedOne(s, rest);
    assert rest[0] == frame[k] && rest[1..] == frame[k + 1..];
    assert Drained(s) == s;
    if k < |frame| - 1 {
      ReceivingAccepts(e, frame, k);
      FeedRest(e, frame, k + 1);
    } else {
      AcceptCases(s, frame[k]);
      LastByte(e, frame);
      NoMoreBytes(Accept(s, frame[k]));
      assert rest[1..] == [];
    }
  }

  lemma LastByte(e: State, frame: seq<byte>)
    requires IsBoundedFrame(frame)
    ensures var s := Receiving(e, frame, |frame| - 1);
            CompletesFrame(s) && Cleared(s) == Receiving(e, frame, 0) && s.rx + [frame[|frame| - 1]] == frame
  {
  }

  lemma NoMoreBytes(e: State)
    requires e.Valid()
    ensures Feed(e, []) == Drained(e) && WholeResponse(e, []) == e.tx
  {
    hide State.Valid;
    assert e.tx + [] == e.tx;
  }

  lemma StartValid(e: State, frame: seq<byte>)
    requires e.Valid()
    ensures Receiving(e, frame, 0).Valid()
  {
  }

  /** Feeding a whole frame to an endpoint between frames is dispatching it. */
  lemma FeedFrame(e: State, frame: seq<byte>)
    requires e.Valid() && e.rx == [] && e.tx == [] && IsBoundedFrame(frame)
    ensures Drained(e).Valid()
    ensures Feed(e, frame) == Drained(Dispatch(Drained(e), frame))
    ensures WholeResponse(e, frame) == Dispatch(Drained(e), frame).tx
  {
    StartValid(e, frame);
    FirstByte(e, frame);
    FeedOne(e, frame);
    FeedRest(e, frame, 1);
    hide Accept, Dispatch, State.Valid, Feed, WholeResponse;
  }

  lemma FirstByte(e: State, frame: seq<byte>)
    requires e.Valid() && e.rx == [] && e.tx == [] && IsBoundedFrame(frame)
    ensures Drained(e) == Receiving(e, frame, 0) && Drained(e).Valid()
    ensures Accept(Drained(e), frame[0]) == Receiving(e, frame, 1)
  {
    assert frame[..1] == [frame[0]];
  }

  /** One exchange: the response is the endpoint's answer to the request that was built,
      and the endpoint is left in the answered state. */
  lemma ExchangeIsAnswer(e: State, r: Request)
    requires e.Valid() && e.rx == [] && e.tx == [] && r.Valid()
    ensures Drained(e).Valid()
    ensures Feed(e, EncodeRequest(r)) == Drained(Answer(Drained(e), r))
    ensures WholeResponse(e, EncodeRequest(r)) == Answer(Drained(e), r).tx
  {
    EncodedRequestInspects(r);
    PayloadLimit(r.Op());
    hide Inspect, EncodeRequest, State.Valid, Feed, WholeResponse, Answer;
    FeedFrame(e, EncodeRequest(r));
  }

  lemma PayloadLimit(op: Opcode)
    ensures op.PayloadBytes() <= MAX_PAYLOAD_BYTES
  {
  }
}
