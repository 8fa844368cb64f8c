/** The byte-lane endpoint: framing, transaction and service states. The class is the
    source's object; `State` is its value, and every method is proved against a
    function on that value. */
module Endpoint {
  import opened Outcomes
  import opened Bytes
  import opened Crc32
  import opened Ghash
  import opened Protocol
  import opened Wire
  import opened Requests
  import opened Frames
  import opened Results
  import opened Transitions

  datatype Phase = IDLE | RESULT_PENDING | SERVICE_PENDING {
    function Code(): byte {
      match this
      case IDLE => 0
      case RESULT_PENDING => 1
      case SERVICE_PENDING => 2
    }
  }

  /** A decided but uncommitted transition, suspended on a service until its digest arrives. */
  datatype Staged =
    | Decided(txnId: u32, decision: Decision, resultCrc: u32)
    | Suspended(txnId: u32, suspension: Suspension)

  function TransitionOf(txnId: u32, d: Decision): (t: Transition)
    ensures d.Small() ==> t.Encodable()
  {
    Transition(txnId, d.nextPc, d.nextFp, d.writes, d.deferred, d.accesses)
  }

  function ResultPayload(txnId: u32, d: Decision): seq<byte>
    requires d.Small()
  {
    EncodeTransition(TransitionOf(txnId, d))
  }

  datatype Pins = Pins(rxReady: bool, txValid: bool, txData: byte, busy: bool, fault: bool, donePulse: bool)

  /** What the host drives at one rising edge. */
  datatype Input = Input(rxData: byte, rxValid: bool, txReady: bool, abort: bool, resetN: bool)

  datatype Record = Record(pins: Pins, rxCommitted: bool, txCommitted: bool)

  datatype State = State(
    phase: Phase,
    profile: Profile,
    committedPc: u32,
    committedFp: u32,
    stateValid: bool,
    retireSeq: nat,
    serviceSeq: u32,
    lastStatus: Status,
    lastFault: Status,
    staged: Option<Staged>,
    rx: seq<byte>,
    tx: seq<byte>,
    expected: nat,
    done: bool,
    abortCount: nat
  ) {
    /** The receive buffer holds a proper prefix of one frame. */
    predicate ReceiveValid() {
      && (rx == [] ==> expected == 0)
      && (rx != [] ==> rx[0] == SOF_REQUEST)
      && (0 < |rx| < REQUEST_HEADER_BYTES ==> expected == 0)
      && (|rx| >= REQUEST_HEADER_BYTES ==>
            && U16Of(rx[4], rx[5]) <= MAX_PAYLOAD_BYTES
            && expected == REQUEST_HEADER_BYTES + U16Of(rx[4], rx[5]) + CRC_BYTES
            && |rx| < expected)
    }

    /** The phase says what is staged. */
    predicate StagedValid() {
      match staged
      case None => phase == IDLE
      case Some(Decided(txnId, d, crc)) => phase == RESULT_PENDING && d.Small() && crc == Crc(ResultPayload(txnId, d))
      case Some(Suspended(_, s)) => phase == SERVICE_PENDING && s.Valid() && s.service.serviceId <= serviceSeq
    }

    predicate Valid() {
      && ReceiveValid()
      && StagedValid()
      && (rx == [] || tx == [])
    }

    /** What only a retirement or a reset moves. */
    function Committed(): (u32, u32, bool, nat) {
      (committedPc, committedFp, stateValid, retireSeq)
    }

    function GetPins(): Pins {
      Pins(tx == [], tx != [], if tx != [] then tx[0] else 0,
           tx != [] || rx != [] || phase != IDLE, lastStatus.IsFault(), done)
    }
  }

  const POWER_ON: State :=
    State(IDLE, DEFAULT_PROFILE, 0, 0, false, 0, 0, OK, OK, None, [], [], 0, false, 0)

  // ----- specification functions -----

  function Discarded(e: State): State {
    e.(phase := IDLE, staged := None)
  }

  /** The state once every pending response byte has been taken. */
  function Drained(e: State): State {
    e.(tx := [], done := false)
  }

  function Aborted(e: State): State {
    e.(phase := IDLE, staged := None, rx := [], tx := [], expected := 0, done := false,
       lastStatus := ABORTED, lastFault := ABORTED, abortCount := e.abortCount + 1)
  }

  function Emit(e: State, r: Response): State
    requires r.Encodable()
  {
    e.(lastStatus := r.status,
       lastFault := if r.status.IsFault() then r.status else e.lastFault,
       tx := e.tx + EncodeResponse(r))
  }

  function FaultResponse(status: Status, txnId: u32, detail: byte): (r: Response)
    ensures r.Encodable()
  {
    Response(status, U32Bytes(txnId) + [detail])
  }

  function EmitFault(e: State, status: Status, txnId: u32, detail: byte): State {
    Emit(e, FaultResponse(status, txnId, detail))
  }

  /** The outcome of a handler: the new state, and the fault it raised, if any. */
  datatype Handled = Handled(state: State, fault: Option<Fault>)

  function Raise(e: State, status: Status, detail: byte): Handled {
    Handled(e, Some(Fault(status, detail)))
  }

  function NegotiatePayload(profile: Profile): (p: seq<byte>)
    ensures |p| == 14
  {
    [PROTOCOL_VERSION, profile.Code()] + U16Bytes(MAX_PAYLOAD_BYTES) + [INDEX_BITS, 0]
    + U32Bytes(DEVICE_FEATURES) + U32Bytes(DEVICE_ID)
  }

  function HandleNegotiate(e: State, r: Request): Handled
    requires r.Negotiate?
  {
    if e.phase != IDLE then Raise(e, BAD_STATE, 0)
    else if !(r.versionMin <= PROTOCOL_VERSION <= r.versionMax) then Raise(e, BAD_VERSION, 0)
    else Handled(Emit(e.(profile := r.profile), Response(OK, NegotiatePayload(r.profile))), None)
  }

  function StagedTxnId(e: State): u32 {
    match e.staged case Some(s) => s.txnId case None => 0
  }

  function StatusPayload(e: State): (p: seq<byte>)
    ensures |p| == 20
  {
    [e.phase.Code()] + U32Bytes(StagedTxnId(e)) + [e.lastStatus.Code()] + LittleEndian(4, e.retireSeq)
    + [e.lastFault.Code()] + U32Bytes(e.committedPc) + U32Bytes(e.committedFp) + [if e.stateValid then 1 else 0]
  }

  function HandleStatusQuery(e: State): Handled {
    Handled(Emit(e, Response(INFO, StatusPayload(e))), None)
  }

  lemma {:induction false} ConcatLength<T>(c: Codec<T>, xs: seq<T>)
    requires forall x <- xs :: |c.encode(x)| == c.width
    ensures |Concat(c, xs)| == c.width * |xs|
  {
    if xs != [] {
      ConcatLength(c, xs[1..]);
    }
  }

  lemma ResultPayloadShort(txnId: u32, d: Decision)
    requires d.Small()
    ensures |ResultPayload(txnId, d)| == 15 + 20 * |d.writes| + 8 * |d.deferred| + 4 * |d.accesses|
  {
    ConcatLength(WriteCodec(), d.writes);
    ConcatLength(DeferredCodec(), d.deferred);
    ConcatLength(AccessCodec(), d.accesses);
  }

  /** `_finish_transaction`. */
  function Finish(e: State, txnId: u32, d: Decision): State
    requires d.Small()
  {
    ResultPayloadShort(txnId, d);
    var payload := ResultPayload(txnId, d);
    Emit(e.(staged := Some(Decided(txnId, d, Crc(payload))), phase := RESULT_PENDING), Response(OK, payload))
  }

  function F128Words(words: seq<F128>): (r: seq<byte>)
    ensures |r| == 16 * |words|
  {
    if words == [] then [] else F128Bytes(words[0]) + F128Words(words[1..])
  }

  /** `ServiceRequest.encode`: the 122-byte payload of `SERVICE_REQUIRED`. */
  function ServicePayload(txnId: u32, s: ServiceRequest): (r: seq<byte>)
    ensures |s.message| == 4 && |s.chaining| == 2 ==> |r| == 122
  {
    U32Bytes(txnId) + U32Bytes(s.serviceId) + [BLAKE3_COMPRESS, 0]
    + F128Words(s.message) + F128Words(s.chaining) + F128Bytes(s.metadata)
  }

  /** The checks every instruction passes before it is executed. */
  function Guard(e: State, h: Preamble): Option<Fault> {
    if e.phase != IDLE then Some(Fault(BAD_STATE, 0))
    else if h.profile != e.profile then Some(Fault(BAD_PROFILE, 0))
    else if e.stateValid && (h.pc, h.fp) != (e.committedPc, e.committedFp) then Some(Fault(STATE_MISMATCH, 0))
    else if h.pc >= INDEX_LIMIT || h.fp >= INDEX_LIMIT then Some(Fault(INDEX_RANGE, 0))
    else None
  }

  predicate IsScalar(r: Request) {
    r.Xor? || r.Mul? || r.SetConstant? || r.Deref? || r.Jump?
  }

  function HandleInstruction(e: State, r: Request): Handled
    requires r.Valid() && (IsScalar(r) || r.Blake3?)
  {
    match Guard(e, r.head)
    case Some(fault) => Handled(e, Some(fault))
    case None =>
      if r.Blake3? then HandleBlake3(e, r)
      else
        match Decide(r)
        case Err(fault) => Handled(e, Some(fault))
        case Ok(d) => Handled(Finish(e, r.head.txnId, d), None)
  }

  function HandleBlake3(e: State, r: Request): Handled
    requires r.Valid() && r.Blake3?
  {
    if e.serviceSeq >= 0xFFFF_FFFE then Raise(e, BAD_SERVICE, 0) else
    match DecideBlake3(r, e.serviceSeq + 1)
    case Err(fault) => Handled(e, Some(fault))
    case Ok(s) => Handled(Suspend(e, r.head.txnId, s), None)
  }

  /** The service request is published under the next service id. */
  function Suspend(e: State, txnId: u32, s: Suspension): State
    requires s.Valid() && e.serviceSeq < U32_MAX
  {
    Emit(e.(serviceSeq := e.serviceSeq + 1, staged := Some(Suspended(txnId, s)), phase := SERVICE_PENDING),
         Response(SERVICE_REQUIRED, ServicePayload(txnId, s.service)))
  }

  function HandleServiceResponse(e: State, r: Request): Handled
    requires e.Valid() && r.ServiceResponse?
  {
    match e.staged
    case Some(Suspended(txnId, s)) =>
      if r.txnId != txnId || r.serviceId != s.service.serviceId then Raise(e, BAD_SERVICE, 1)
      else if r.kind != BLAKE3_COMPRESS then Raise(e, BAD_SERVICE, 2)
      else
        (match Resume(s, r.digest0, r.digest1)
         case Err(fault) => Handled(Discarded(e), Some(fault))
         case Ok(d) => Handled(Finish(e, txnId, d), None))
    case _ => Raise(e, BAD_STATE, 0)
  }

  function RetiredPayload(txnId: u32, retireSeq: nat, pc: u32, fp: u32): (p: seq<byte>)
    ensures |p| == 16
  {
    U32Bytes(txnId) + LittleEndian(4, retireSeq) + U32Bytes(pc) + U32Bytes(fp)
  }

  function HandleRetire(e: State, r: Request): Handled
    requires r.Retire?
  {
    match e.staged
    case Some(Decided(txnId, d, crc)) =>
      if e.phase != RESULT_PENDING then Raise(e, BAD_STATE, 0)
      else if r.txnId != txnId || r.resultCrc != crc then
        Raise(Discarded(e), RETIRE_MISMATCH, if r.txnId != txnId then 1 else 2)
      else
        var retired := e.(committedPc := d.nextPc, committedFp := d.nextFp, stateValid := true,
                          retireSeq := e.retireSeq + 1, phase := IDLE, staged := None, done := true);
        Handled(Emit(retired, Response(RETIRED, RetiredPayload(r.txnId, retired.retireSeq, d.nextPc, d.nextFp))), None)
    case _ => Raise(e, BAD_STATE, 0)
  }

  function Handle(e: State, r: Request): Handled
    requires e.Valid() && r.Valid()
  {
    match r
    case Negotiate(_, _, _, _) => HandleNegotiate(e, r)
    case StatusQuery => HandleStatusQuery(e)
    case ServiceResponse(_, _, _, _, _) => HandleServiceResponse(e, r)
    case Retire(_, _) => HandleRetire(e, r)
    case _ => HandleInstruction(e, r)
  }

  /** The handler's outcome on the wire: a raised fault becomes a response. */
  function Answer(e: State, r: Request): State
    requires e.Valid() && r.Valid()
  {
    var h := Handle(e, r);
    match h.fault
    case None => h.state
    case Some(fault) => EmitFault(h.state, fault.status, r.TxnId(), fault.detail)
  }

  /** `_available_txn_id`. */
  function AvailableTxnId(op: Opcode, payload: seq<byte>): u32 {
    if op == NEGOTIATE || op == STATUS_QUERY then 0
    else
      var prefix := payload[..if |payload| < 4 then |payload| else 4];
      U32Of(prefix + [0, 0, 0, 0][|prefix|..])
  }

  /** A complete frame, as long as its own length field says. */
  predicate IsWholeFrame(frame: seq<byte>) {
    |frame| >= REQUEST_HEADER_BYTES && |frame| == REQUEST_HEADER_BYTES + U16Of(frame[4], frame[5]) + CRC_BYTES
  }

  /** What the frame checks make of a complete frame; none of them looks at the state. */
  datatype Verdict = BadFrame(status: Status, txnId: u32, detail: byte) | GoodRequest(request: Request)

  function Inspect(frame: seq<byte>): (v: Verdict)
    requires IsWholeFrame(frame)
    ensures v.GoodRequest? ==> v.request.Valid()
  {
    var end := |frame| - CRC_BYTES;
    if U32Of(frame[end..]) != Crc(frame[..end]) then BadFrame(BAD_CRC, 0, 0)
    else if frame[1] != PROTOCOL_VERSION then BadFrame(BAD_VERSION, 0, 0)
    else if frame[3] != 0 then BadFrame(BAD_FLAGS, 0, 0)
    else match OpcodeOf(frame[2])
      case None => BadFrame(BAD_OPCODE, 0, 0)
      case Some(op) => InspectPayload(op, frame[REQUEST_HEADER_BYTES..end])
  }

  function InspectPayload(op: Opcode, payload: seq<byte>): (v: Verdict)
    ensures v.GoodRequest? ==> v.request.Valid() && v.request.Op() == op
  {
    if |payload| != op.PayloadBytes() then BadFrame(BAD_LENGTH, AvailableTxnId(op, payload), 2)
    else
      DecodedRebuilds(op, payload);
      match DecodePayload(op, payload)
      case Err(fault) => BadFrame(fault.status, 0, fault.detail)
      case Ok(r) => GoodRequest(r)
  }

  function Dispatch(e: State, frame: seq<byte>): State
    requires e.Valid() && IsWholeFrame(frame)
  {
    match Inspect(frame)
    case BadFrame(status, txnId, detail) => EmitFault(e, status, txnId, detail)
    case GoodRequest(r) => Answer(e, r)
  }

  function Accept(e: State, b: byte): State
    requires e.Valid()
  {
    if e.rx == [] then
      if b != SOF_REQUEST then EmitFault(e, BAD_SOF, 0, 0) else e.(rx := [b], expected := 0)
    else
      var rx := e.rx + [b];
      var length := if |rx| >= REQUEST_HEADER_BYTES then U16Of(rx[4], rx[5]) else 0;
      if |rx| == REQUEST_HEADER_BYTES && length > MAX_PAYLOAD_BYTES then
        EmitFault(e.(rx := []), BAD_LENGTH, 0, 1)
      else
        var expected := if |rx| == REQUEST_HEADER_BYTES then REQUEST_HEADER_BYTES + length + CRC_BYTES else e.expected;
        if expected != 0 && |rx| == expected then Dispatch(e.(rx := [], expected := 0), rx)
        else e.(rx := rx, expected := expected)
  }

  predicate Accepting(e: State, i: Input) {
    i.resetN && !i.abort && i.rxValid && e.tx == []
  }

  /** One rising edge. */
  function Step(e: State, i: Input): State
    requires e.Valid()
  {
    if !i.resetN then POWER_ON
    else if i.abort then Aborted(e)
    else if e.tx != [] then e.(done := false, tx := if i.txReady then e.tx[1..] else e.tx)
    else if i.rxValid then Accept(e.(done := false), i.rxData)
    else e.(done := false)
  }

  function RecordOf(e: State, i: Input): Record {
    Record(e.GetPins(), Accepting(e, i), i.resetN && !i.abort && e.tx != [] && i.txReady)
  }

  // ----- every step keeps the invariant -----

  /** Nothing but receive and transmit buffers and the phase matters to the invariant. */
  lemma AnswerKeepsValid(e: State, r: Request)
    requires e.Valid() && e.rx == [] && r.Valid()
    ensures Answer(e, r).Valid() && Answer(e, r).rx == []
  {
    HandleStages(e, r);
  }

  /** A handler leaves the receive side alone and stages consistently. */
  ghost predicate StagesWell(e: State, h: Handled) {
    h.state.StagedValid() && h.state.rx == e.rx && h.state.expected == e.expected
  }

  lemma HandleStages(e: State, r: Request)
    requires e.Valid() && r.Valid()
    ensures StagesWell(e, Handle(e, r))
  {
    if r.ServiceResponse? {
      ServiceResponseStages(e, r);
    } else if r.Retire? {
      RetireStages(e, r);
    } else if IsScalar(r) || r.Blake3? {
      InstructionStages(e, r);
    }
  }

  lemma ServiceResponseStages(e: State, r: Request)
    requires e.Valid() && r.ServiceResponse?
    ensures StagesWell(e, HandleServiceResponse(e, r))
  {
    hide EncodeResponse, Resume, ResultPayload;
  }

  lemma RetireStages(e: State, r: Request)
    requires e.Valid() && r.Retire?
    ensures StagesWell(e, HandleRetire(e, r))
  {
  }

  lemma InstructionStages(e: State, r: Request)
    requires e.Valid() && r.Valid() && (IsScalar(r) || r.Blake3?)
    ensures StagesWell(e, HandleInstruction(e, r))
  {
    hide Decide, DecideBlake3, EncodeResponse, ServicePayload, ResultPayload;
  }

  lemma DispatchKeepsValid(e: State, frame: seq<byte>)
    requires e.Valid() && e.rx == [] && IsWholeFrame(frame)
    ensures Dispatch(e, frame).Valid() && Dispatch(e, frame).rx == []
  {
    match Inspect(frame)
    case BadFrame(_, _, _) =>
    case GoodRequest(r) => AnswerKeepsValid(e, r);
  }

  /** The next byte is the last one of the frame being received. */
  predicate CompletesFrame(e: State) {
    e.rx != [] && |e.rx| + 1 == e.expected
  }

  /** A byte either completes a frame, which is dispatched, or touches nothing but the
      receive side and, for a framing fault, the response side. */
  lemma AcceptCases(e: State, b: byte)
    requires e.Valid() && e.tx == []
    ensures CompletesFrame(e) ==>
      && IsWholeFrame(e.rx + [b])
      && Cleared(e).Valid()
      && Accept(e, b) == Dispatch(Cleared(e), e.rx + [b])
    ensures !CompletesFrame(e) ==>
      && Accept(e, b).Valid()
      && Accept(e, b).staged == e.staged && Accept(e, b).phase == e.phase
      && Accept(e, b).Committed() == e.Committed() && Accept(e, b).serviceSeq == e.serviceSeq
  {
    hide Dispatch, ResultPayload, EncodeResponse;
    if e.rx != [] {
      var rx := e.rx + [b];
      assert rx[0] == SOF_REQUEST;
      assert |e.rx| >= REQUEST_HEADER_BYTES ==> rx[4] == e.rx[4] && rx[5] == e.rx[5];
    }
  }

  function Cleared(e: State): State {
    e.(rx := [], expected := 0)
  }

  lemma AcceptKeepsValid(e: State, b: byte)
    requires e.Valid() && e.tx == []
    ensures Accept(e, b).Valid()
  {
    AcceptCases(e, b);
    if CompletesFrame(e) {
      DispatchKeepsValid(Cleared(e), e.rx + [b]);
    }
  }

  lemma StepKeepsValid(e: State, i: Input)
    requires e.Valid()
    ensures Step(e, i).Valid()
  {
    if Accepting(e, i) {
      AcceptKeepsValid(e.(done := false), i.rxData);
    }
  }

  // ----- commitment -----

  /** The request retires exactly what is staged. */
  predicate Matches(e: State, r: Request) {
    && r.Retire?
    && e.staged.Some? && e.staged.value.Decided?
    && r.txnId == e.staged.value.txnId
    && r.resultCrc == e.staged.value.resultCrc
  }

  /** The staged decision became the committed state, once. */
  predicate Retires(e: State, e': State) {
    && e.staged.Some? && e.staged.value.Decided?
    && e'.Committed() == (e.staged.value.decision.nextPc, e.staged.value.decision.nextFp, true, e.retireSeq + 1)
    && e'.phase == IDLE && e'.staged == None
    && e'.done
  }

  /** The byte completes a frame that retires what is staged. */
  predicate CompletesRetire(e: State, b: byte)
    requires e.Valid()
  {
    && CompletesFrame(e)
    && IsWholeFrame(e.rx + [b])
    && Inspect(e.rx + [b]).GoodRequest?
    && Matches(e, Inspect(e.rx + [b]).request)
  }

  lemma ControlKeepsCommitted(e: State, r: Request)
    requires e.Valid() && r.Valid() && (r.Negotiate? || r.StatusQuery? || r.ServiceResponse?)
    ensures Handle(e, r).state.Committed() == e.Committed()
  {
  }

  lemma InstructionKeepsCommitted(e: State, r: Request)
    requires e.Valid() && r.Valid() && (IsScalar(r) || r.Blake3?)
    ensures Handle(e, r).state.Committed() == e.Committed()
  {
    hide Decide, DecideBlake3, ResultPayload;
  }

  /** A retirement commits exactly when it matches, and otherwise discards what was staged. */
  lemma RetireCommits(e: State, r: Request)
    requires e.Valid() && r.Retire?
    ensures var h := HandleRetire(e, r);
            if Matches(e, r) then Retires(e, h.state) && h.fault == None
            else h.state.Committed() == e.Committed() && h.fault.Some?
  {
    hide ResultPayload, EncodeResponse, RetiredPayload, State.ReceiveValid, Decision.Small;
  }

  /** A handler either leaves the committed state alone or is a matching retirement. */
  lemma AnswerCommits(e: State, r: Request)
    requires e.Valid() && r.Valid()
    ensures if Matches(e, r) then Retires(e, Answer(e, r)) else Answer(e, r).Committed() == e.Committed()
  {
    hide HandleInstruction, HandleServiceResponse, HandleNegotiate;
    if r.Retire? {
      RetireCommits(e, r);
    } else if IsScalar(r) || r.Blake3? {
      InstructionKeepsCommitted(e, r);
    } else {
      ControlKeepsCommitted(e, r);
    }
  }

  lemma AcceptCommits(e: State, b: byte)
    requires e.Valid() && e.tx == []
    ensures if CompletesRetire(e, b) then Retires(e, Accept(e, b)) else Accept(e, b).Committed() == e.Committed()
  {
    hide Accept, Inspect, Answer, ResultPayload;
    AcceptCases(e, b);
    if CompletesFrame(e) {
      match Inspect(e.rx + [b])
      case BadFrame(_, _, _) =>
      case GoodRequest(r) => AnswerCommits(Cleared(e), r);
    }
  }

  /** The committed state moves, other than by reset, exactly when an accepted byte
      completes a matching RETIRE; and then every response byte has already left. */
  lemma StepCommits(e: State, i: Input)
    requires e.Valid() && i.resetN
    ensures if Accepting(e, i) && CompletesRetire(e, i.rxData) then Retires(e, Step(e, i))
            else Step(e, i).Committed() == e.Committed()
  {
    hide Accept, Inspect, ResultPayload;
    if Accepting(e, i) {
      AcceptCommits(e.(done := false), i.rxData);
    }
  }

  lemma StepRetires(e: State, i: Input)
    requires e.Valid()
    ensures Step(e, i).retireSeq <= e.retireSeq + (if Accepting(e, i) then 1 else 0)
  {
    hide Accept, CompletesRetire;
    if i.resetN {
      StepCommits(e, i);
    }
  }
}
