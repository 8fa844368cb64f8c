/** Payload bytes damaged on the lane, in either direction, against a whole host step. */
module Damage {
  import opened Outcomes
  import opened Bytes
  import opened Crc32
  import opened Protocol
  import opened Wire
  import opened Requests
  import opened Frames
  import opened Results
  import opened Host
  import opened ServiceHost
  import Programs
  import Endpoint
  import Exchange
  import Lane
  import Lockstep
  import Service = Blake3Service

  // ----- damaged frames -----

  /** The frame of a body whose payload arrives as `payload`, header and CRC intact. */
  function Garbled(body: seq<byte>, header: nat, payload: seq<byte>): seq<byte>
    requires header <= |body|
  {
    body[..header] + payload + U32Bytes(Crc(body))
  }

  /** A response whose payload was hit by a burst of up to four bytes. */
  ghost predicate DamagedReply(reply: Reply) {
    exists r: Response, payload, start, length ::
      && r.Encodable() && DifferByBurst(r.payload, payload, start, length)
      && reply == DecodeResponse(Garbled(ResponseBody(r), RESPONSE_HEADER_BYTES, payload))
  }

  /** What an endpoint between frames sends back for a request whose payload was hit by such a burst. */
  ghost predicate ReplyToDamaged(reply: Reply) {
    exists e: Endpoint.State, r: Request, payload, start, length ::
      && e.Valid() && e.rx == [] && e.tx == [] && r.Valid() && DifferByBurst(Payload(r), payload, start, length)
      && reply == DecodeResponse(Lane.WholeResponse(e, GarbledRequest(r, payload)))
  }

  function GarbledRequest(r: Request, payload: seq<byte>): seq<byte>
    requires r.Valid()
  {
    PayloadDecodes(r);
    Exchange.PayloadLimit(r.Op());
    Garbled(RequestBody(r.Op().Code(), Payload(r)), REQUEST_HEADER_BYTES, payload)
  }

  /** The exchange was damaged in one direction or the other. */
  ghost predicate Damaged(reply: Reply) {
    DamagedReply(reply) || ReplyToDamaged(reply)
  }

  lemma DamagedReplyRejected(reply: Reply)
    requires DamagedReply(reply)
    ensures reply == Err(Malformed(BAD_CRC))
  {
    hide DecodeResponse, Crc, ResponseBody;
    var r: Response, payload, start, length :|
      && r.Encodable() && DifferByBurst(r.payload, payload, start, length)
      && reply == DecodeResponse(Garbled(ResponseBody(r), RESPONSE_HEADER_BYTES, payload));
    CorruptedResponseRejected(r, payload, start, length);
  }

  /** Driven over the lane, a damaged request leaves the endpoint as it was but for its status
      registers, and is answered with BAD_CRC. */
  lemma DamagedRequestAnswered(e: Endpoint.State, r: Request, payload: seq<byte>, start: nat, length: nat)
    requires e.Valid() && e.rx == [] && e.tx == [] && r.Valid() && DifferByBurst(Payload(r), payload, start, length)
    ensures var frame := GarbledRequest(r, payload);
            && Lane.Feed(e, frame) == Endpoint.Drained(e).(lastStatus := BAD_CRC, lastFault := BAD_CRC)
            && DecodeResponse(Lane.WholeResponse(e, frame)) == Ok(Endpoint.FaultResponse(BAD_CRC, 0, 0))
  {
    hide DecodeResponse, EncodeResponse, Crc, Payload, Endpoint.Inspect, Lane.Feed, Lane.WholeResponse, Endpoint.State.Valid, Request.Valid,
      DifferByBurst, GarbledRequest;
    var frame := GarbledRequest(r, payload);
    Exchange.CorruptedRequestRejected(r, payload, start, length);
    GarbledShape(r, payload, start, length);
    Exchange.FeedFrame(e, frame);
    Lockstep.FaultReply(Endpoint.Drained(e), BAD_CRC, 0, 0);
  }

  lemma GarbledShape(r: Request, payload: seq<byte>, start: nat, length: nat)
    requires r.Valid() && DifferByBurst(Payload(r), payload, start, length)
    ensures |Payload(r)| <= MAX_PAYLOAD_BYTES
    ensures GarbledRequest(r, payload)
         == RequestBody(r.Op().Code(), Payload(r))[..REQUEST_HEADER_BYTES] + payload + U32Bytes(Crc(RequestBody(r.Op().Code(), Payload(r))))
    ensures Exchange.IsBoundedFrame(GarbledRequest(r, payload))
  {
    hide Crc, Payload, Request.Valid, Opcode.Code, Opcode.PayloadBytes;
    PayloadDecodes(r);
    Exchange.PayloadLimit(r.Op());
    Exchange.BodyShape(r.Op().Code(), Payload(r));
  }

  lemma ReplyToDamagedIs(reply: Reply)
    requires ReplyToDamaged(reply)
    ensures reply == Ok(Endpoint.FaultResponse(BAD_CRC, 0, 0))
  {
    hide DecodeResponse, Lane.WholeResponse, GarbledRequest, Endpoint.FaultResponse;
    var e: Endpoint.State, r: Request, payload, start, length :|
      && e.Valid() && e.rx == [] && e.tx == [] && r.Valid() && DifferByBurst(Payload(r), payload, start, length)
      && reply == DecodeResponse(Lane.WholeResponse(e, GarbledRequest(r, payload)));
    DamagedRequestAnswered(e, r, payload, start, length);
  }

  // ----- whole steps -----

  /** Why a step that consults the damaged exchange raises. */
  ghost function Complaint(reply: Reply): Failure
    requires Damaged(reply)
  {
    if DamagedReply(reply) then Undecodable(Malformed(BAD_CRC)) else ProtocolViolation
  }

  /** Neither reading of a damaged exchange is a fault the host takes for one of its step. */
  lemma DamagedIs(reply: Reply)
    requires Damaged(reply)
    ensures reply == Err(Malformed(BAD_CRC)) || reply == Ok(Endpoint.FaultResponse(BAD_CRC, 0, 0))
    ensures reply.Err? <==> Complaint(reply) == Undecodable(Malformed(BAD_CRC))
    ensures reply.Ok? <==> Complaint(reply) == ProtocolViolation
  {
    hide DamagedReply, ReplyToDamaged;
    if DamagedReply(reply) {
      DamagedReplyRejected(reply);
    } else {
      ReplyToDamagedIs(reply);
    }
  }

  lemma DamagedFault(txnId: nat, staged: bool)
    ensures FaultOutcome(Endpoint.FaultResponse(BAD_CRC, 0, 0), txnId, staged) == Raised(ProtocolViolation)
  {
    hide U32Of;
  }

  /** A RETIRE damaged on its way is answered with something that makes no sense to the host. */
  lemma DamagedRetirementIsSenseless(h: State, t: Transition, retire: Reply)
    requires ReplyToDamaged(retire)
    ensures Senseless(h, t, retire)
  {
    hide ReplyToDamaged, U32Of;
    ReplyToDamagedIs(retire);
  }

  /** A damaged exchange never lets a scalar step commit, and raises if the step gets to it. */
  lemma DamagedScalarStep(h: State, profile: Profile, op: Programs.Operation, reply: Reply, retire: Reply, outcome: StepOutcome, h': State)
    requires !op.Blake3? && h.txnId + 1 < U32_LIMIT
    requires IsStep(h, profile, op, reply, retire, outcome, h')
    requires Damaged(reply) || Damaged(retire)
    ensures !outcome.Retired? && Untouched(h, h')
    ensures Damaged(reply) ==> outcome.Refused? || outcome == Raised(Complaint(reply))
    ensures Damaged(retire) ==>
      match Prepare(h.(txnId := h.txnId + 1), profile, op)
      case Err(refusal) => outcome == Refused(refusal)
      case Ok(p) =>
        match Judge(h.(txnId := h.txnId + 1, stepIndex := h.stepIndex + 1), p.addresses, reply)
        case Err(o) => outcome == o
        case Ok(_) => outcome == Raised(Complaint(retire))
  {
    hide Prepare, Prevalidate, IsCommit, U32Of, Damaged, CredibleFault, Complaint;
    DamagedFault(h.txnId + 1, false);
    DamagedFault(h.txnId + 1, true);
    if Damaged(reply) {
      DamagedIs(reply);
    }
    if Damaged(retire) {
      DamagedIs(retire);
    }
  }

  /** Nor any step: whichever of its exchanges is damaged, nothing is committed. */
  lemma DamagedStep(h: State, profile: Profile, a: Service.Adapter, op: Programs.Operation, replies: Replies,
                    attempts: seq<Service.Attempt>, end: Ending, h': State)
    requires op.Valid() && h.txnId + 1 < U32_LIMIT
    requires IsHostStep(h, profile, a, op, replies, attempts, end, h')
    requires Damaged(replies.first) || (op.Blake3? && Damaged(replies.second)) || Damaged(replies.retire)
    ensures !end.outcome.Retired? && Untouched(h, h')
  {
    hide IsTransaction, PrepareBlake3, IsStep, Damaged, Untouched;
    StepAllOrNothing(h, profile, a, op, replies, attempts, end, h');
    if op.Blake3? {
      var h1 := h.(txnId := h.txnId + 1);
      var prepared := PrepareBlake3(h1, profile, op);
      if prepared.Ok? {
        DamagedTransaction(h1.(stepIndex := h1.stepIndex + 1), a, prepared.value, replies, attempts, end, h');
      }
    } else {
      DamagedScalarStep(h, profile, op, replies.first, replies.retire, end.outcome, h');
    }
  }

  /** How a BLAKE3 transaction with a damaged exchange ends. A damaged reply aborts both sides and uses
      up the key. So does an answered damaged digest; an answered damaged request or RETIRE aborts
      neither. */
  lemma DamagedTransaction(h: State, a: Service.Adapter, p: Prepared, replies: Replies, attempts: seq<Service.Attempt>,
                           end: Ending, h': State)
    requires p.request.Blake3? && p.request.Valid() && h.txnId < U32_LIMIT
    requires IsTransaction(h, a, p, replies, attempts, end, h')
    requires Damaged(replies.first) || Damaged(replies.second) || Damaged(replies.retire)
    ensures !end.outcome.Retired? && h' == h
    ensures Damaged(replies.first) ==>
      end == Ending(Raised(Complaint(replies.first)), if replies.first.Err? then Service.AbortedAdapter(a) else a, replies.first.Err?)
    ensures match JudgeRequested(h, a, p, replies.first, attempts)
            case Err(_) => true
            case Ok((a1, _)) =>
              && (Damaged(replies.second) ==> end == Abandoned(a1, Complaint(replies.second)))
              && (JudgeServed(h, a1, p.addresses, replies.second).Ok? && Damaged(replies.retire) ==>
                    end == Ending(Raised(Complaint(replies.retire)),
                                  if replies.retire.Err? then Service.AbortedAdapter(a1) else a1, replies.retire.Err?))
  {
    hide Serve, Prevalidate, IsCommit, U32Of, Damaged, CredibleFault, Complaint;
    DamagedFault(h.txnId, false);
    DamagedFault(h.txnId, true);
    if Damaged(replies.first) {
      DamagedIs(replies.first);
    }
    if Damaged(replies.second) {
      DamagedIs(replies.second);
    }
    if Damaged(replies.retire) {
      DamagedIs(replies.retire);
    }
  }
}
