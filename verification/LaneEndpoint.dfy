/** The endpoint as an object: `Lsc1Endpoint` with the fields its methods update. */
module LaneEndpoint {
  import opened Outcomes
  import opened Bytes
  import opened Crc32
  import opened Protocol
  import opened Wire
  import opened Requests
  import opened Frames
  import opened Results
  import opened Transitions
  import opened Endpoint

  class Lsc1Endpoint {
    var phase: Phase
    var profile: Profile
    var committedPc: u32
    var committedFp: u32
    var stateValid: bool
    var retireSeq: nat
    var serviceSeq: u32
    var lastStatus: Status
    var lastFault: Status
    var staged: Option<Staged>
    var rx: seq<byte>
    var tx: seq<byte>
    var expected: nat
    var done: bool
    var abortCount: nat

    ghost function View(): State
      reads this
    {
      State(phase, profile, committedPc, committedFp, stateValid, retireSeq, serviceSeq,
            lastStatus, lastFault, staged, rx, tx, expected, done, abortCount)
    }

    /** `u32le(retire_seq)` raises once the counter needs a fifth byte. */
    ghost predicate Countable()
      reads this`retireSeq
    {
      retireSeq < U32_MAX
    }

    constructor ()
      ensures View() == POWER_ON
    {
      phase, profile := IDLE, DEFAULT_PROFILE;
      committedPc, committedFp, stateValid := 0, 0, false;
      retireSeq, serviceSeq := 0, 0;
      lastStatus, lastFault := OK, OK;
      staged := None;
      rx, tx, expected := [], [], 0;
      done, abortCount := false, 0;
    }

    /** `_reset`. */
    method Reset()
      modifies this
      ensures View() == POWER_ON
    {
      ClearBuffers();
      phase, profile, staged := IDLE, DEFAULT_PROFILE, None;
      committedPc, committedFp, stateValid := 0, 0, false;
      retireSeq, serviceSeq, abortCount := 0, 0, 0;
      lastStatus, lastFault := OK, OK;
    }

    method ClearBuffers()
      modifies this`rx, this`tx, this`expected, this`done
      ensures View() == old(View()).(rx := [], tx := [], expected := 0, done := false)
    {
      rx, tx, expected, done := [], [], 0, false;
    }

    method Discard()
      modifies this
      ensures View() == Discarded(old(View()))
    {
      phase := IDLE;
      staged := None;
    }

    method Abort()
      modifies this
      ensures View() == Aborted(old(View()))
    {
      Discard();
      ClearBuffers();
      lastStatus, lastFault := ABORTED, ABORTED;
      abortCount := abortCount + 1;
    }

    function SamplePins(): (p: Pins)
      reads this
      ensures p == View().GetPins()
    {
      Pins(tx == [], tx != [], if tx != [] then tx[0] else 0,
           tx != [] || rx != [] || phase != IDLE, lastStatus.IsFault(), done)
    }

    method EmitResponse(r: Response)
      requires r.Encodable()
      modifies this
      ensures View() == Emit(old(View()), r)
    {
      lastStatus := r.status;
      if r.status.IsFault() {
        lastFault := r.status;
      }
      tx := tx + EncodeResponse(r);
    }

    method SendFault(status: Status, txnId: u32, detail: byte)
      modifies this
      ensures View() == EmitFault(old(View()), status, txnId, detail)
    {
      EmitResponse(FaultResponse(status, txnId, detail));
    }

    /** `step`: sample the pins, then reset, abort, or commit at most one beat each way. */
    method Tick(i: Input) returns (record: Record)
      requires View().Valid() && Countable()
      modifies this
      ensures View() == Step(old(View()), i) && View().Valid()
      ensures record == RecordOf(old(View()), i)
      ensures retireSeq <= old(retireSeq) + (if record.rxCommitted then 1 else 0)
    {
      StepKeepsValid(View(), i);
      StepRetires(View(), i);
      var pins := SamplePins();
      if !i.resetN {
        Reset();
        return Record(pins, false, false);
      }
      if i.abort {
        Abort();
        return Record(pins, false, false);
      }
      done := false;
      var rxCommitted := i.rxValid && pins.rxReady;
      var txCommitted := pins.txValid && i.txReady;
      if txCommitted {
        tx := tx[1..];
      }
      if rxCommitted {
        AcceptByte(i.rxData);
      }
      return Record(pins, rxCommitted, txCommitted);
    }

    /** `_accept`. */
    method AcceptByte(b: byte)
      requires View().Valid() && tx == [] && Countable()
      modifies this
      ensures View() == Accept(old(View()), b)
    {
      if rx == [] {
        if b != SOF_REQUEST {
          SendFault(BAD_SOF, 0, 0);
          return;
        }
        rx, expected := [b], 0;
        return;
      }
      var length := 0;
      rx := rx + [b];
      if |rx| == REQUEST_HEADER_BYTES {
        length := U16Of(rx[4], rx[5]);
        if length > MAX_PAYLOAD_BYTES {
          rx := [];
          SendFault(BAD_LENGTH, 0, 1);
          return;
        }
        expected := REQUEST_HEADER_BYTES + length + CRC_BYTES;
      }
      if expected != 0 && |rx| == expected {
        var frame := rx;
        rx, expected := [], 0;
        DispatchFrame(frame);
      }
    }

    /** `_dispatch`. */
    method DispatchFrame(frame: seq<byte>)
      requires View().Valid() && rx == [] && IsWholeFrame(frame) && Countable()
      modifies this
      ensures View() == Dispatch(old(View()), frame)
    {
      hide InspectPayload, Answer, State.Valid, EncodeResponse, FaultResponse, Crc, U32Of, OpcodeOf;
      var end := |frame| - CRC_BYTES;
      var crc := ComputeCrc(frame[..end]);
      if U32Of(frame[end..]) != crc {
        SendFault(BAD_CRC, 0, 0);
        return;
      }
      if frame[1] != PROTOCOL_VERSION {
        SendFault(BAD_VERSION, 0, 0);
        return;
      }
      if frame[3] != 0 {
        SendFault(BAD_FLAGS, 0, 0);
        return;
      }
      match OpcodeOf(frame[2]) {
        case None => SendFault(BAD_OPCODE, 0, 0);
        case Some(op) => DispatchPayload(op, frame[REQUEST_HEADER_BYTES..end]);
      }
    }

    method DispatchPayload(op: Opcode, payload: seq<byte>)
      requires View().Valid() && Countable()
      modifies this
      ensures View() == match InspectPayload(op, payload)
                        case BadFrame(status, txnId, detail) => EmitFault(old(View()), status, txnId, detail)
                        case GoodRequest(r) => Answer(old(View()), r)
    {
      hide EncodeResponse, Endpoint.State.Valid, Handle, Parse, Payload, Schema, FromFields;
      if |payload| != op.PayloadBytes() {
        SendFault(BAD_LENGTH, AvailableTxnId(op, payload), 2);
        return;
      }
      DecodedRebuilds(op, payload);
      var decoded := DecodeRequestPayload(op, payload);
      match decoded {
        case Err(fault) => SendFault(fault.status, 0, fault.detail);
        case Ok(r) =>
          var outcome := HandleRequest(r);
          if outcome.Some? {
            SendFault(outcome.value.status, r.TxnId(), outcome.value.detail);
          }
      }
    }

    /** `_handle`; the result is the fault it raised. */
    method HandleRequest(r: Request) returns (fault: Option<Fault>)
      requires View().Valid() && r.Valid() && Countable()
      modifies this
      ensures Handled(View(), fault) == Handle(old(View()), r)
    {
      match r {
        case Negotiate(_, _, _, _) => fault := Negotiated(r);
        case StatusQuery => fault := StatusQueried();
        case ServiceResponse(_, _, _, _, _) => fault := ServiceAnswered(r);
        case Retire(_, _) => fault := Retired(r);
        case _ => fault := Instruct(r);
      }
    }

    method Negotiated(r: Request) returns (fault: Option<Fault>)
      requires r.Negotiate?
      modifies this
      ensures Handled(View(), fault) == HandleNegotiate(old(View()), r)
    {
      if phase != IDLE {
        return Some(Fault(BAD_STATE, 0));
      }
      if !(r.versionMin <= PROTOCOL_VERSION <= r.versionMax) {
        return Some(Fault(BAD_VERSION, 0));
      }
      profile := r.profile;
      EmitResponse(Response(OK, NegotiatePayload(profile)));
      return None;
    }

    method StatusQueried() returns (fault: Option<Fault>)
      modifies this
      ensures Handled(View(), fault) == HandleStatusQuery(old(View()))
    {
      var txnId := match staged case Some(s) => s.txnId case None => 0;
      EmitResponse(Response(INFO,
        [phase.Code()] + U32Bytes(txnId) + [lastStatus.Code()] + LittleEndian(4, retireSeq)
        + [lastFault.Code()] + U32Bytes(committedPc) + U32Bytes(committedFp) + [if stateValid then 1 else 0]));
      return None;
    }

    /** `_handle_instruction`. */
    method Instruct(r: Request) returns (fault: Option<Fault>)
      requires View().Valid() && r.Valid() && (IsScalar(r) || r.Blake3?)
      modifies this
      ensures Handled(View(), fault) == HandleInstruction(old(View()), r)
    {
      if phase != IDLE {
        return Some(Fault(BAD_STATE, 0));
      }
      if r.head.profile != profile {
        return Some(Fault(BAD_PROFILE, 0));
      }
      if stateValid && (r.head.pc, r.head.fp) != (committedPc, committedFp) {
        return Some(Fault(STATE_MISMATCH, 0));
      }
      if r.head.pc >= Ghash.INDEX_LIMIT || r.head.fp >= Ghash.INDEX_LIMIT {
        return Some(Fault(INDEX_RANGE, 0));
      }
      if r.Blake3? {
        fault := SuspendOn(r);
        return;
      }
      var decided := Execute(r);
      match decided {
        case Err(f) => return Some(f);
        case Ok(d) =>
          FinishTransaction(r.head.txnId, d);
          return None;
      }
    }

    method SuspendOn(r: Request) returns (fault: Option<Fault>)
      requires r.Valid() && r.Blake3?
      modifies this
      ensures Handled(View(), fault) == HandleBlake3(old(View()), r)
    {
      hide DecideBlake3, ServicePayload, EncodeResponse;
      if serviceSeq >= 0xFFFF_FFFE {
        return Some(Fault(BAD_SERVICE, 0));
      }
      var suspended := ExecuteBlake3(r, serviceSeq + 1);
      match suspended {
        case Err(f) => return Some(f);
        case Ok(s) =>
          serviceSeq := serviceSeq + 1;
          staged := Some(Suspended(r.head.txnId, s));
          phase := SERVICE_PENDING;
          EmitResponse(Response(SERVICE_REQUIRED, ServicePayload(r.head.txnId, s.service)));
          return None;
      }
    }

    /** `_finish_transaction`. */
    method FinishTransaction(txnId: u32, d: Decision)
      requires d.Small()
      modifies this
      ensures View() == Finish(old(View()), txnId, d)
    {
      ResultPayloadShort(txnId, d);
      var payload := EncodeTransition(TransitionOf(txnId, d));
      var crc := ComputeCrc(payload);
      staged := Some(Decided(txnId, d, crc));
      phase := RESULT_PENDING;
      EmitResponse(Response(OK, payload));
    }

    /** `_handle_service_response`. */
    method ServiceAnswered(r: Request) returns (fault: Option<Fault>)
      requires View().Valid() && r.ServiceResponse?
      modifies this
      ensures Handled(View(), fault) == HandleServiceResponse(old(View()), r)
    {
      if phase != SERVICE_PENDING || staged.None? {
        return Some(Fault(BAD_STATE, 0));
      }
      var txnId, s := staged.value.txnId, staged.value.suspension;
      if r.txnId != txnId || r.serviceId != s.service.serviceId {
        return Some(Fault(BAD_SERVICE, 1));
      }
      if r.kind != BLAKE3_COMPRESS {
        return Some(Fault(BAD_SERVICE, 2));
      }
      match Resume(s, r.digest0, r.digest1) {
        case Err(f) =>
          Discard();
          return Some(f);
        case Ok(d) =>
          FinishTransaction(txnId, d);
          return None;
      }
    }

    method CommitDecision(nextPc: u32, nextFp: u32)
      modifies this
      ensures View() == old(View()).(committedPc := nextPc, committedFp := nextFp, stateValid := true,
                                     retireSeq := old(retireSeq) + 1, phase := IDLE, staged := None, done := true)
    {
      committedPc, committedFp, stateValid := nextPc, nextFp, true;
      retireSeq := retireSeq + 1;
      phase, staged, done := IDLE, None, true;
    }

    /** `_handle_retire`: the only place that moves the committed state. */
    method Retired(r: Request) returns (fault: Option<Fault>)
      requires View().Valid() && r.Retire? && Countable()
      modifies this
      ensures Handled(View(), fault) == HandleRetire(old(View()), r)
    {
      hide ResultPayload, EncodeResponse, State.ReceiveValid, Decision.Small, State.GetPins;
      if phase != RESULT_PENDING || staged.None? {
        return Some(Fault(BAD_STATE, 0));
      }
      var s := staged.value;
      if r.txnId != s.txnId || r.resultCrc != s.resultCrc {
        var detail: byte := if r.txnId != s.txnId then 1 else 2;
        Discard();
        return Some(Fault(RETIRE_MISMATCH, detail));
      }
      CommitDecision(s.decision.nextPc, s.decision.nextFp);
      EmitResponse(Response(RETIRED,
        U32Bytes(r.txnId) + LittleEndian(4, retireSeq) + U32Bytes(committedPc) + U32Bytes(committedFp)));
      return None;
    }
  }
}
