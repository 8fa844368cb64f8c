/** The independent packet executor: `XOR`, `MUL_NATIVE`, `SET_CONSTANT` and `RETIRE` over the
    same byte lane, with its own frame memory, staging and dispatch. Driven by the same inputs its
    state is a function of the endpoint's and of one thing more: whether the response being sent
    answers a payload that did not decode, and then under which transaction id. */
module PacketExecutor {
  import opened Outcomes
  import opened Bytes
  import opened Crc32
  import opened Ghash
  import opened Protocol
  import opened Wire
  import opened Requests
  import opened Frames
  import opened Results
  import opened Transitions
  import opened Endpoint
  import opened PacketCodec
  import opened PacketExecution

  datatype ExecutorPhase = Idle | ResultPending

  datatype StagedResult = StagedResult(
    txnId: u32, nextPc: u32, nextFp: u32, writes: seq<Write>, accesses: seq<u32>, resultCrc: u32)

  /** The value of a `PacketExecutor` object. */
  datatype Executor = Executor(
    phase: ExecutorPhase,
    profile: Profile,
    committedPc: u32,
    committedFp: u32,
    stateValid: bool,
    retireSeq: nat,
    lastStatus: Status,
    lastFault: Status,
    staged: Option<StagedResult>,
    rx: seq<byte>,
    tx: seq<byte>,
    expected: nat,
    done: bool,
    abortCount: nat
  )

  // ----- the relation to the endpoint -----

  /** What the executor can represent: nothing suspended, nothing deferred. */
  predicate Representable(e: State) {
    match e.staged
    case None => e.phase == IDLE
    case Some(Decided(_, d, _)) => e.phase == RESULT_PENDING && d.deferred == []
    case Some(Suspended(_, _)) => false
  }

  function StagedImage(s: Option<Staged>): Option<StagedResult> {
    match s
    case Some(Decided(txnId, d, crc)) => Some(StagedResult(txnId, d.nextPc, d.nextFp, d.writes, d.accesses, crc))
    case _ => None
  }

  function Image(e: State): Executor {
    Executor(if e.phase == IDLE then Idle else ResultPending, e.profile, e.committedPc, e.committedFp, e.stateValid,
             e.retireSeq, e.lastStatus, e.lastFault, StagedImage(e.staged), e.rx, e.tx, e.expected, e.done, e.abortCount)
  }

  /** How the executor's pending response differs from the endpoint's: not at all, or in the
      transaction id of a fault that the endpoint reports under the id zero. */
  datatype Echo = Same | Prefixed(status: Status, txnId: u32, detail: byte)

  /** A fault response is fourteen bytes long. */
  const FAULT_BYTES: nat := 14

  /** What remains of the executor's response when `tx` remains of the endpoint's. */
  function Echoed(tx: seq<byte>, echo: Echo): (t: seq<byte>)
    requires |tx| <= FAULT_BYTES || echo.Same?
    ensures |t| == |tx|
  {
    match echo
    case Same => tx
    case Prefixed(status, txnId, detail) => EncodeResponse(FaultResponse(status, txnId, detail))[FAULT_BYTES - |tx|..]
  }

  /** The endpoint is sending the fault, under the id zero. */
  predicate Sending(tx: seq<byte>, echo: Echo) {
    echo.Prefixed? ==>
      |tx| <= FAULT_BYTES && tx == EncodeResponse(FaultResponse(echo.status, 0, echo.detail))[FAULT_BYTES - |tx|..]
  }

  predicate Bisimilar(x: Executor, e: State, echo: Echo) {
    e.Valid() && Representable(e) && Sending(e.tx, echo) && x == Image(e).(tx := Echoed(e.tx, echo))
  }

  /** A frame that passes every check but whose payload does not decode is answered by the executor
      under the first four bytes of that payload. */
  function EchoOf(frame: seq<byte>): Echo
    requires IsWholeFrame(frame)
  {
    var end := |frame| - CRC_BYTES;
    if U32Of(frame[end..]) != Crc(frame[..end]) || frame[1] != PROTOCOL_VERSION || frame[3] != 0 then Same
    else match OpcodeOf(frame[2])
      case None => Same
      case Some(op) => PayloadEcho(op, frame[REQUEST_HEADER_BYTES..end])
  }

  function PayloadEcho(op: Opcode, payload: seq<byte>): Echo {
    if |payload| != op.PayloadBytes() then Same
    else match DecodePayload(op, payload)
      case Err(fault) => Prefixed(fault.status, AvailableTxnId(op, payload), fault.detail)
      case Ok(_) => Same
  }

  /** Whether the response pending after an edge is such an answer. */
  function NextEcho(e: State, echo: Echo, i: Input): Echo {
    if !i.resetN || i.abort then Same
    else if e.tx != [] then echo
    else if i.rxValid && CompletesFrame(e) && IsWholeFrame(e.rx + [i.rxData]) then EchoOf(e.rx + [i.rxData])
    else Same
  }

  /** The endpoint's record, with the byte the executor shows instead. */
  function Shown(r: Record, tx: seq<byte>, echo: Echo): Record
    requires Sending(tx, echo)
  {
    if tx == [] then r else r.(pins := r.pins.(txData := Echoed(tx, echo)[0]))
  }

  /** The edge does not complete a frame of an opcode that only the endpoint executes. */
  predicate InScope(e: State, i: Input) {
    Accepting(e, i) && CompletesFrame(e) ==> FrameInScope(e.rx + [i.rxData])
  }

  predicate FrameInScope(frame: seq<byte>) {
    |frame| > 2 && OpcodeOf(frame[2]).Some? ==> InSubset(OpcodeOf(frame[2]).value)
  }

  /** The executor after it answered with a fault. */
  function Faulted(x: Executor, status: Status, txnId: u32, detail: byte): Executor {
    x.(tx := x.tx + EncodeResponse(FaultResponse(status, txnId, detail)), lastStatus := status,
       lastFault := if status.IsFault() then status else x.lastFault)
  }

  /** Answered under the id the endpoint uses, a fault leaves the two alike. */
  lemma FaultsAlike(e: State, status: Status, detail: byte, txnId: u32)
    requires e.Valid() && e.rx == [] && e.tx == [] && Representable(e)
    ensures Bisimilar(Faulted(Image(e), status, txnId, detail), EmitFault(e, status, txnId, detail), Same)
  {
    hide EncodeResponse, ResultPayload;
  }

  /** Answered under the prefix of a payload that did not decode, they differ by that prefix. */
  lemma FaultsApart(e: State, status: Status, detail: byte, txnId: u32)
    requires e.Valid() && e.rx == [] && e.tx == [] && Representable(e)
    ensures Bisimilar(Faulted(Image(e), status, txnId, detail), EmitFault(e, status, 0, detail), Prefixed(status, txnId, detail))
  {
    hide ResultPayload;
    hide EncodeResponse;
    var x, y := EncodeResponse(FaultResponse(status, txnId, detail)), EncodeResponse(FaultResponse(status, 0, detail));
    assert [] + x == x[0..] && [] + y == y[0..];
  }

  lemma ImageBisimilar(e: State)
    requires e.Valid() && Representable(e)
    ensures Bisimilar(Image(e), e, Same)
  {
  }

  // ----- when the two differ -----

  function FaultHead(status: Status): (h: seq<byte>)
    ensures |h| == 5
  {
    [SOF_RESPONSE, PROTOCOL_VERSION, status.Code()] + U16Bytes(5)
  }

  /** A fault response, field by field. */
  lemma FaultLayout(status: Status, txnId: u32, detail: byte)
    ensures var body := FaultHead(status) + U32Bytes(txnId) + [detail];
            EncodeResponse(FaultResponse(status, txnId, detail)) == body + U32Bytes(Crc(body))
  {
    hide Crc, U32Bytes, Status.Code;
    assert ResponseBody(FaultResponse(status, txnId, detail)) == FaultHead(status) + U32Bytes(txnId) + [detail];
  }

  lemma CutFault(head: seq<byte>, id: seq<byte>, detail: byte, crc: seq<byte>)
    requires |head| == 5 && |id| == 4 && |crc| == 4
    ensures var x := head + id + [detail] + crc;
            |x| == FAULT_BYTES && x[..5] == head && x[5..9] == id && x[9] == detail && x[10..] == crc
  {
  }

  /** Bodies that differ in the transaction id have different CRCs. */
  lemma IdsSeparate(head: seq<byte>, id: seq<byte>, other: seq<byte>, detail: byte)
    requires |head| == 5 && |id| == |other| == 4 && id != other
    ensures Crc(head + id + [detail]) != Crc(head + other + [detail])
  {
    hide Crc;
    var a, b := head + id + [detail], head + other + [detail];
    assert a[..5] == b[..5] && a[9..] == b[9..] && a[5..9] == id && b[5..9] == other;
    assert DifferByBurst(a, b, 5, 4);
    BurstDetected(a, b, 5, 4);
  }

  /** The two responses agree on the header and the detail byte, and differ in both the transaction
      id and the CRC exactly when the echoed id is not zero. */
  lemma ResponsesDiffer(status: Status, txnId: u32, detail: byte)
    ensures var x, e := EncodeResponse(FaultResponse(status, txnId, detail)), EncodeResponse(FaultResponse(status, 0, detail));
            && |x| == |e| == FAULT_BYTES
            && x[..5] == e[..5] && x[9] == e[9] == detail
            && (txnId == 0 ==> x == e)
            && (txnId != 0 ==> x[5..9] != e[5..9] && x[10..] != e[10..])
  {
    hide Crc, U32Bytes, Status.Code, EncodeResponse, FaultResponse, FaultHead;
    var head := FaultHead(status);
    var a, b := head + U32Bytes(txnId) + [detail], head + U32Bytes(0) + [detail];
    FaultLayout(status, txnId, detail);
    FaultLayout(status, 0, detail);
    CutFault(head, U32Bytes(txnId), detail, U32Bytes(Crc(a)));
    CutFault(head, U32Bytes(0), detail, U32Bytes(Crc(b)));
    if txnId != 0 {
      WordsDiffer(txnId, 0);
      IdsSeparate(head, U32Bytes(txnId), U32Bytes(0), detail);
      WordsDiffer(Crc(a), Crc(b));
    }
  }

  lemma WordsDiffer(v: u32, w: u32)
    ensures v != w ==> U32Bytes(v) != U32Bytes(w)
  {
    U32RoundTrip(v, []);
    U32RoundTrip(w, []);
  }

  /** A payload that does not decode is answered by the endpoint under the id zero. */
  lemma UndecodableAnswered(e: State, frame: seq<byte>)
    requires e.Valid() && e.rx == [] && e.tx == [] && IsWholeFrame(frame) && EchoOf(frame).Prefixed?
    ensures Dispatch(e, frame).tx == EncodeResponse(FaultResponse(EchoOf(frame).status, 0, EchoOf(frame).detail))
  {
    hide EncodeResponse, DecodePayload, Crc, U32Of, State.Valid;
  }

  /** Both answer a frame, and they answer it differently if and only if it passes every other check,
      its payload does not decode, and does not begin with four zero bytes. */
  lemma AnswersDiffer(x: Executor, e: State, frame: seq<byte>)
    requires e.Valid() && e.rx == [] && e.tx == [] && IsWholeFrame(frame) && Bisimilar(x, Dispatch(e, frame), EchoOf(frame))
    ensures x.tx != Dispatch(e, frame).tx <==> EchoOf(frame).Prefixed? && EchoOf(frame).txnId != 0
  {
    hide EncodeResponse, EchoOf, State.Valid, Dispatch, FaultResponse;
    match EchoOf(frame)
    case Same =>
    case Prefixed(status, txnId, detail) =>
      UndecodableAnswered(e, frame);
      ResponsesDiffer(status, txnId, detail);
      var answer := EncodeResponse(FaultResponse(status, txnId, detail));
      assert answer[0..] == answer;
  }

  /** Only a malformed profile, reserved byte or cell makes a payload of the subset not decode, and
      the id echoed is the payload's own prefix. */
  lemma EchoIsPrefix(op: Opcode, payload: seq<byte>)
    requires InSubset(op) && PayloadEcho(op, payload).Prefixed?
    ensures var echo := PayloadEcho(op, payload);
            && op != RETIRE && echo.status in {BAD_PROFILE, BAD_FLAGS, BAD_CELL}
            && echo.txnId == U32Of(payload[..4])
  {
    hide Parse, U32Of;
    SchemaLength(op);
    SubsetKinds(op);
    ParseFaults(Schema(op), payload);
    assert payload[..4] + [0, 0, 0, 0][4..] == payload[..4];
  }

  /** An instruction with an unknown profile code is such a payload, and the prefix is its own. */
  lemma UnknownProfileEchoes(op: Opcode, payload: seq<byte>)
    requires InSubset(op) && op != RETIRE && |payload| == op.PayloadBytes() && payload[12] > 1
    ensures PayloadEcho(op, payload) == Prefixed(BAD_PROFILE, U32Of(payload[..4]), 0)
  {
    hide U32Of;
    var schema := Schema(op);
    assert schema[..4] == [KU32, KU32, KU32, KProfile];
    var one, two, three := payload[4..], payload[8..], payload[12..];
    assert one[4..] == two && two[4..] == three && payload[4..] == one;
    assert schema[1..][1..] == schema[2..] && schema[2..][1..] == schema[3..];
    assert Parse(schema[3..], three) == Reject(BAD_PROFILE);
    assert Parse(schema[2..], two) == Reject(BAD_PROFILE);
    assert Parse(schema[1..], one) == Reject(BAD_PROFILE);
    assert Parse(schema, payload) == Reject(BAD_PROFILE);
    assert payload[..4] + [0, 0, 0, 0][4..] == payload[..4];
  }

  /** A frame built around a payload echoes what the payload does. */
  lemma SealedEcho(op: Opcode, payload: seq<byte>)
    requires |payload| == op.PayloadBytes() && |payload| <= MAX_PAYLOAD_BYTES
    ensures var frame := Seal(RequestBody(op.Code(), payload));
            IsWholeFrame(frame) && EchoOf(frame) == PayloadEcho(op, payload)
  {
    hide Crc, U32Of, U32Bytes, PayloadEcho;
    var body := RequestBody(op.Code(), payload);
    var frame := Seal(body);
    U32RoundTrip(Crc(body), []);
    assert frame[|body|..] == U32Bytes(Crc(body));
    assert frame[4] == body[4] && frame[5] == body[5] && frame[1] == body[1] && frame[2] == body[2] && frame[3] == body[3];
    assert frame[REQUEST_HEADER_BYTES..|body|] == payload;
  }

  /** A concrete frame to which the two answer differently: SET_CONSTANT under transaction id 1 with
      profile code 7. The executor echoes 1, the endpoint zero. */
  lemma DifferingFrame(zeros: seq<byte>)
    requires zeros == seq(46, _ => 0)
    ensures var payload := [1, 0, 0, 0] + zeros[..8] + [7] + zeros[8..];
            var frame := Seal(RequestBody(SET_CONSTANT.Code(), payload));
            IsWholeFrame(frame) && EchoOf(frame) == Prefixed(BAD_PROFILE, 1, 0)
  {
    var payload: seq<byte> := [1, 0, 0, 0] + zeros[..8] + [7] + zeros[8..];
    assert payload[12] == 7 && |payload| == 51 && payload[..4] == [1, 0, 0, 0];
    UnknownProfileEchoes(SET_CONSTANT, payload);
    SealedEcho(SET_CONSTANT, payload);
    PrefixOne();
    hide U32Of, PayloadEcho, EchoOf, Seal, RequestBody;
  }

  lemma PrefixOne()
    ensures U32Of([1, 0, 0, 0]) == 1
  {
    var bytes: seq<byte> := [1, 0, 0, 0];
    assert bytes[1..] == [0, 0, 0] && bytes[1..][1..] == [0, 0] && bytes[1..][1..][1..] == [0] && bytes[1..][1..][1..][1..] == [];
  }

  lemma SubsetKinds(op: Opcode)
    requires InSubset(op)
    ensures KTaken !in Schema(op) && op.PayloadBytes() >= 4
    ensures op == RETIRE ==> forall k :: k in Schema(op) ==> k == KU32
  {
  }

  lemma {:induction false} ParseFaults(schema: seq<Kind>, data: seq<byte>)
    requires KTaken !in schema && |data| == SchemaBytes(schema)
    ensures Parse(schema, data).Err? ==> Parse(schema, data).error.status in {BAD_PROFILE, BAD_FLAGS, BAD_CELL}
    ensures (forall k :: k in schema ==> k == KU32) ==> Parse(schema, data).Ok?
  {
    if schema != [] {
      assert schema[0] in schema && forall k :: k in schema[1..] ==> k in schema;
      ParseFaults(schema[1..], data[Width(schema[0])..]);
    }
  }

  lemma ClearedIsValid(e: State)
    requires e.Valid() && e.tx == [] && Representable(e)
    ensures Cleared(e).Valid() && forall rx, expected :: Representable(e.(rx := rx, expected := expected))
  {
    hide ResultPayload;
  }

  lemma StartedFrame(e: State, b: byte)
    requires e.Valid() && e.tx == [] && e.rx == [] && b == SOF_REQUEST
    ensures Image(Accept(e, b)) == Image(e).(rx := [b])
  {
    assert [] + [b] == [b];
    hide Dispatch;
  }

  lemma ContinuedFrame(e: State, b: byte)
    requires e.Valid() && e.tx == [] && e.rx != []
    ensures var rx := e.rx + [b];
            var length := if |rx| >= REQUEST_HEADER_BYTES then U16Of(rx[4], rx[5]) else 0;
            var expected := if |rx| == REQUEST_HEADER_BYTES then REQUEST_HEADER_BYTES + length + CRC_BYTES else e.expected;
            if |rx| == REQUEST_HEADER_BYTES && length > MAX_PAYLOAD_BYTES then
              Accept(e, b) == EmitFault(Cleared(e), BAD_LENGTH, 0, 1)
            else if expected != 0 && |rx| == expected then
              IsWholeFrame(rx) && CompletesFrame(e) && Cleared(e).Valid() && Accept(e, b) == Dispatch(Cleared(e), rx)
            else
              Accept(e, b) == e.(rx := rx, expected := expected)
  {
    hide Dispatch, State.Valid, EmitFault, IsWholeFrame, U16Of;
    AcceptCases(e, b);
    NothingExpected(e);
  }

  lemma NothingExpected(e: State)
    requires e.Valid()
    ensures 0 < |e.rx| < REQUEST_HEADER_BYTES ==> e.expected == 0
  {
    hide State.StagedValid;
  }

  /** What accepting the byte makes of the pending response. */
  function AcceptedEcho(e: State, b: byte): Echo {
    if CompletesFrame(e) && IsWholeFrame(e.rx + [b]) then EchoOf(e.rx + [b]) else Same
  }

  lemma CompletionIgnoresDone(e: State)
    ensures CompletesFrame(e.(done := false)) == CompletesFrame(e)
  {
  }

  function AbortedExecutor(x: Executor): Executor {
    x.(phase := Idle, staged := None, rx := [], expected := 0, tx := [], done := false,
       lastStatus := ABORTED, lastFault := ABORTED, abortCount := x.abortCount + 1)
  }

  /** What the relation says about the fields the pins show. */
  lemma ShownAlike(x: Executor, e: State, echo: Echo)
    requires Bisimilar(x, e, echo)
    ensures e.Valid() && Sending(e.tx, echo) && x.tx == Echoed(e.tx, echo) && x.retireSeq == e.retireSeq
    ensures x.lastStatus == e.lastStatus && x.done == e.done && (x.rx != [] || x.phase != Idle) == (e.rx != [] || e.phase != IDLE)
  {
    hide ResultPayload, State.ReceiveValid, EncodeResponse;
  }

  lemma AbortsAlike(x: Executor, e: State, echo: Echo)
    requires Bisimilar(x, e, echo)
    ensures Bisimilar(AbortedExecutor(x), Aborted(e), Same)
  {
    hide ResultPayload, EncodeResponse;
  }

  /** A byte leaves both, or neither. */
  lemma DrainsAlike(x: Executor, e: State, echo: Echo)
    requires Bisimilar(x, e, echo)
    ensures Bisimilar(x.(done := false), e.(done := false), echo)
    ensures x.tx != [] ==> e.tx != [] && Bisimilar(x.(done := false, tx := x.tx[1..]), e.(done := false, tx := e.tx[1..]), echo)
  {
    hide ResultPayload, EncodeResponse;
  }

  /** With no response pending there is nothing to differ in. */
  lemma QuietAlike(x: Executor, e: State, echo: Echo)
    requires Bisimilar(x, e, echo) && x.tx == []
    ensures var quiet := e.(done := false); quiet.Valid() && Representable(quiet) && x.(done := false) == Image(quiet)
    ensures Bisimilar(x.(done := false), e.(done := false), Same)
  {
    hide ResultPayload, EncodeResponse;
  }

  // ----- the executor -----

  class PacketExecutor {
    var phase: ExecutorPhase
    var profile: Profile
    var committedPc: u32
    var committedFp: u32
    var stateValid: bool
    var retireSeq: nat
    var lastStatus: Status
    var lastFault: Status
    var staged: Option<StagedResult>
    var rx: seq<byte>
    var tx: seq<byte>
    var expected: nat
    var done: bool
    var abortCount: nat

    ghost function View(): Executor
      reads this
    {
      Executor(phase, profile, committedPc, committedFp, stateValid, retireSeq, lastStatus, lastFault,
               staged, rx, tx, expected, done, abortCount)
    }

    constructor ()
      ensures View() == Image(POWER_ON) && retireSeq == 0
    {
      phase, profile := Idle, INTERPRETER_COMPAT;
      committedPc, committedFp, stateValid, retireSeq := 0, 0, false, 0;
      lastStatus, lastFault, staged := OK, OK, None;
      rx, tx, expected, done, abortCount := [], [], 0, false, 0;
    }

    method ClearBuffers()
      modifies this`rx, this`tx, this`expected, this`done
      ensures View() == old(View()).(rx := [], tx := [], expected := 0, done := false)
    {
      rx, tx, expected, done := [], [], 0, false;
    }

    method ForgetCommitted()
      modifies this`committedPc, this`committedFp, this`stateValid, this`retireSeq, this`abortCount
      ensures View() == old(View()).(committedPc := 0, committedFp := 0, stateValid := false, retireSeq := 0, abortCount := 0)
    {
      committedPc, committedFp, stateValid, retireSeq, abortCount := 0, 0, false, 0, 0;
    }

    method Stage(phase: ExecutorPhase, staged: Option<StagedResult>)
      modifies this`phase, this`staged
      ensures View() == old(View()).(phase := phase, staged := staged)
    {
      this.phase, this.staged := phase, staged;
    }

    method Commit(pc: u32, fp: u32)
      modifies this`committedPc, this`committedFp, this`stateValid, this`retireSeq, this`done
      ensures View() == old(View()).(committedPc := pc, committedFp := fp, stateValid := true,
                                     retireSeq := old(retireSeq) + 1, done := true)
    {
      committedPc, committedFp, stateValid := pc, fp, true;
      retireSeq, done := retireSeq + 1, true;
    }

    /** `_power_on`. */
    method PowerOn()
      modifies this
      ensures View() == Image(POWER_ON) && retireSeq == 0
    {
      ForgetCommitted();
      ClearBuffers();
      Stage(Idle, None);
      profile, lastStatus, lastFault := INTERPRETER_COMPAT, OK, OK;
    }

    function SamplePins(): Pins
      reads this
    {
      Pins(tx == [], tx != [], if tx != [] then tx[0] else 0,
           rx != [] || tx != [] || phase != Idle, lastStatus.IsFault(), done)
    }

    /** `step`. The relation to the endpoint survives every edge in scope, and the record shown is
        determined by it. */
    method Step(i: Input, ghost e: State, ghost echo: Echo) returns (record: Record)
      requires Bisimilar(View(), e, echo) && InScope(e, i) && retireSeq < U32_MAX
      modifies this
      ensures Bisimilar(View(), Endpoint.Step(e, i), NextEcho(e, echo, i)) && retireSeq <= old(retireSeq) + 1
      ensures record == Shown(RecordOf(e, i), e.tx, echo)
    {
      hide Accept, Bisimilar, Image, Aborted, Representable, State.Valid, InScope, EchoOf, EncodeResponse, IsWholeFrame, Echoed;
      ShownAlike(View(), e, echo);
      var pins := SamplePins();
      if !i.resetN {
        ImageBisimilar(POWER_ON);
        PowerOn();
        return Record(pins, false, false);
      }
      if i.abort {
        AbortsAlike(View(), e, echo);
        Abort();
        return Record(pins, false, false);
      }
      var rxCommitted, txCommitted := i.rxValid && pins.rxReady, i.txReady && pins.txValid;
      Transfer(i, rxCommitted, txCommitted, e, echo);
      return Record(pins, rxCommitted, txCommitted);
    }

    /** The sequential half of an edge without reset or abort. */
    method Transfer(i: Input, rxCommitted: bool, txCommitted: bool, ghost e: State, ghost echo: Echo)
      requires Bisimilar(View(), e, echo) && InScope(e, i) && retireSeq < U32_MAX && i.resetN && !i.abort
      requires rxCommitted == (i.rxValid && tx == []) && txCommitted == (i.txReady && tx != [])
      modifies this
      ensures Bisimilar(View(), Endpoint.Step(e, i), NextEcho(e, echo, i)) && retireSeq <= old(retireSeq) + 1
    {
      hide Accept, Bisimilar, Image, Representable, State.Valid, EchoOf, EncodeResponse, IsWholeFrame, Sending,
        FrameInScope, Shown;
      ShownAlike(View(), e, echo);
      StepRetires(e, i);
      DrainsAlike(View(), e, echo);
      if tx == [] {
        QuietAlike(View(), e, echo);
      }
      done := false;
      if txCommitted {
        tx := tx[1..];
      }
      if rxCommitted {
        AcceptByte(i.rxData, e.(done := false));
        CompletionIgnoresDone(e);
        ShownAlike(View(), Endpoint.Step(e, i), NextEcho(e, echo, i));
      }
    }

    method Abort()
      modifies this
      ensures View() == AbortedExecutor(old(View())) && retireSeq == old(retireSeq)
    {
      Stage(Idle, None);
      ClearBuffers();
      lastStatus, lastFault := ABORTED, ABORTED;
      abortCount := abortCount + 1;
    }

    method Emit(status: Status, payload: seq<byte>)
      requires |payload| < 0x1_0000
      modifies this
      ensures View() == old(View()).(
                tx := old(tx) + EncodeResponse(Response(status, payload)), lastStatus := status,
                lastFault := if status.IsFault() then status else old(lastFault))
    {
      hide Crc, U32Bytes;
      var body := [SOF_RESPONSE, PROTOCOL_VERSION, status.Code()] + U16Bytes(|payload|) + payload;
      var crc := ComputeCrc(body);
      tx := tx + (body + U32Bytes(crc));
      lastStatus := status;
      if status.IsFault() {
        lastFault := status;
      }
    }

    method SendFault(status: Status, txnId: u32, detail: byte)
      modifies this
      ensures View() == Faulted(old(View()), status, txnId, detail)
    {
      Emit(status, U32Bytes(txnId) + [detail]);
    }

    /** The first byte of a frame. */
    method StartFrame(b: byte, ghost e: State)
      requires e.Valid() && e.tx == [] && Representable(e) && View() == Image(e) && rx == []
      modifies this
      ensures Bisimilar(View(), Accept(e, b), Same)
    {
      AcceptKeepsValid(e, b);
      ClearedIsValid(e);
      hide Dispatch, Bisimilar, EmitFault, Faulted, State.Valid, Representable;
      if b != SOF_REQUEST {
        SendFault(BAD_SOF, 0, 0);
        FaultsAlike(e, BAD_SOF, 0, 0);
      } else {
        rx := rx + [b];
        StartedFrame(e, b);
        ImageBisimilar(Accept(e, b));
      }
    }

    /** `_accept`. */
    method AcceptByte(b: byte, ghost e: State)
      requires e.Valid() && e.tx == [] && Representable(e) && View() == Image(e) && retireSeq < U32_MAX
      requires CompletesFrame(e) ==> FrameInScope(e.rx + [b])
      modifies this
      ensures Bisimilar(View(), Accept(e, b), AcceptedEcho(e, b))
    {
      hide EchoOf;
      hide Accept, Dispatch, Bisimilar, EmitFault, Faulted, State.Valid, Representable;
      ClearedIsValid(e);
      AcceptKeepsValid(e, b);
      if rx == [] {
        StartFrame(b, e);
        return;
      }
      ContinuedFrame(e, b);
      rx := rx + [b];
      if |rx| == REQUEST_HEADER_BYTES {
        var length := U16Of(rx[4], rx[5]);
        if length > MAX_PAYLOAD_BYTES {
          rx, expected := [], 0;
          SendFault(BAD_LENGTH, 0, 1);
          FaultsAlike(Cleared(e), BAD_LENGTH, 1, 0);
          return;
        }
        expected := REQUEST_HEADER_BYTES + length + CRC_BYTES;
      }
      if expected != 0 && |rx| == expected {
        var frame := rx;
        rx, expected := [], 0;
        DispatchFrame(frame, Cleared(e));
      } else {
        ImageBisimilar(Accept(e, b));
      }
    }

    /** `_dispatch`. */
    method DispatchFrame(frame: seq<byte>, ghost e: State)
      requires e.Valid() && e.rx == [] && e.tx == [] && Representable(e) && View() == Image(e) && retireSeq < U32_MAX
      requires IsWholeFrame(frame) && FrameInScope(frame)
      modifies this
      ensures Bisimilar(View(), Dispatch(e, frame), EchoOf(frame))
    {
      hide InspectPayload, Answer, State.Valid, Crc, U32Of, OpcodeOf, Bisimilar, Image, EmitFault, Faulted, Representable;
      var end := |frame| - CRC_BYTES;
      var crc := ComputeCrc(frame[..end]);
      if U32Of(frame[end..]) != crc {
        SendFault(BAD_CRC, 0, 0);
        FaultsAlike(e, BAD_CRC, 0, 0);
        return;
      }
      if frame[1] != PROTOCOL_VERSION {
        SendFault(BAD_VERSION, 0, 0);
        FaultsAlike(e, BAD_VERSION, 0, 0);
        return;
      }
      if frame[3] != 0 {
        SendFault(BAD_FLAGS, 0, 0);
        FaultsAlike(e, BAD_FLAGS, 0, 0);
        return;
      }
      match OpcodeOf(frame[2]) {
        case None =>
          SendFault(BAD_OPCODE, 0, 0);
          FaultsAlike(e, BAD_OPCODE, 0, 0);
        case Some(op) =>
          DispatchPayload(op, frame[REQUEST_HEADER_BYTES..end], e);
      }
    }

    /** The payload of a frame that passed every other check. A fault is answered under the payload's
        own prefix, whatever the endpoint echoes. */
    method DispatchPayload(op: Opcode, payload: seq<byte>, ghost e: State)
      requires e.Valid() && e.rx == [] && e.tx == [] && Representable(e) && View() == Image(e) && retireSeq < U32_MAX
      requires InSubset(op)
      modifies this
      ensures match InspectPayload(op, payload)
              case BadFrame(status, txnId, detail) =>
                && View() == Faulted(old(View()), status, AvailableTxnId(op, payload), detail)
                && Bisimilar(View(), EmitFault(e, status, txnId, detail), PayloadEcho(op, payload))
              case GoodRequest(r) => Bisimilar(View(), Answer(e, r), PayloadEcho(op, payload))
    {
      hide State.Valid, DecodePayload, Request.Valid, Bisimilar, Image, EmitFault, Faulted, Representable, Answer;
      var txnId := AvailableTxnId(op, payload);
      if |payload| != op.PayloadBytes() {
        SendFault(BAD_LENGTH, txnId, 2);
        FaultsAlike(e, BAD_LENGTH, 2, txnId);
        return;
      }
      DecodedRebuilds(op, payload);
      var decoded: Checked<Request>;
      if op == RETIRE {
        decoded := DecodeRetire(payload);
      } else {
        decoded := DecodeInstruction(op, payload);
      }
      match decoded {
        case Err(fault) =>
          SendFault(fault.status, txnId, fault.detail);
          FaultsApart(e, fault.status, fault.detail, txnId);
        case Ok(r) =>
          Perform(r, e);
      }
    }

    /** A decoded request: the instruction or the retirement, and the fault it raised, if any. */
    method Perform(r: Request, ghost e: State)
      requires e.Valid() && e.rx == [] && e.tx == [] && Representable(e) && View() == Image(e) && retireSeq < U32_MAX
      requires r.Valid() && InSubset(r.Op())
      modifies this
      ensures Bisimilar(View(), Answer(e, r), Same)
    {
      ghost var h := Handle(e, r);
      HandledQuietly(e, r);
      hide HandleInstruction, HandleRetire, Request.Valid, State.Valid, Bisimilar, Image, EmitFault, Faulted;
      var fault;
      if r.Retire? {
        fault := Retire(r.txnId, r.resultCrc, e, r);
      } else {
        fault := Instruct(r, e);
      }
      if fault.Some? {
        SendFault(fault.value.status, r.TxnId(), fault.value.detail);
        FaultsAlike(h.state, fault.value.status, fault.value.detail, r.TxnId());
      } else {
        ImageBisimilar(h.state);
      }
    }

    /** `_instruction`, behind the codec. */
    method Instruct(r: Request, ghost e: State) returns (fault: Option<Fault>)
      requires Representable(e) && View() == Image(e) && r.Valid() && (r.Xor? || r.Mul? || r.SetConstant?)
      modifies this
      ensures var h := HandleInstruction(e, r); fault == h.fault && Representable(h.state) && View() == Image(h.state)
    {
      hide Decide, Endpoint.Finish, Request.Valid;
      if phase != Idle {
        return Some(Fault(BAD_STATE, 0));
      }
      if r.head.profile != profile {
        return Some(Fault(BAD_PROFILE, 0));
      }
      if stateValid && (r.head.pc, r.head.fp) != (committedPc, committedFp) {
        return Some(Fault(STATE_MISMATCH, 0));
      }
      if r.head.pc >= INDEX_LIMIT || r.head.fp >= INDEX_LIMIT {
        return Some(Fault(INDEX_RANGE, 0));
      }
      var executed := ExecuteRequest(r);
      match executed {
        case Err(f) => return Some(f);
        case Ok((writes, accesses)) =>
          Finish(r, writes, accesses, e);
          return None;
      }
    }

    method Finish(r: Request, writes: seq<Write>, accesses: seq<u32>, ghost e: State)
      requires View() == Image(e) && r.Valid() && (r.Xor? || r.Mul? || r.SetConstant?) && r.head.pc < INDEX_LIMIT
      requires Decide(r) == Ok(Decision(r.head.pc + 1, r.head.fp, writes, [], accesses))
      modifies this
      ensures var e' := Endpoint.Finish(e, r.head.txnId, Decide(r).value); Representable(e') && View() == Image(e')
    {
      hide Decide, EncodeResponse, EncodeTransition, Request.Valid, Crc;
      ResultPayloadShort(r.head.txnId, Decide(r).value);
      var payload := BuildResult(r.head.txnId, r.head.pc + 1, r.head.fp, writes, accesses);
      var crc := ComputeCrc(payload);
      Stage(ResultPending, Some(StagedResult(r.head.txnId, r.head.pc + 1, r.head.fp, writes, accesses, crc)));
      Emit(OK, payload);
    }

    /** `_retire`. */
    method Retire(txnId: u32, resultCrc: u32, ghost e: State, ghost r: Request) returns (fault: Option<Fault>)
      requires Representable(e) && View() == Image(e) && r == Request.Retire(txnId, resultCrc) && retireSeq < U32_MAX
      modifies this
      ensures var h := HandleRetire(e, r); fault == h.fault && Representable(h.state) && View() == Image(h.state)
    {
      hide EncodeResponse, U32Bytes, LittleEndian, ResultPayload, Crc;
      if phase != ResultPending || staged.None? {
        return Some(Fault(BAD_STATE, 0));
      }
      var s := staged.value;
      if txnId != s.txnId || resultCrc != s.resultCrc {
        Stage(Idle, None);
        return Some(Fault(RETIRE_MISMATCH, if txnId != s.txnId then 1 else 2));
      }
      Commit(s.nextPc, s.nextFp);
      Stage(Idle, None);
      Emit(RETIRED, U32Bytes(txnId) + LittleEndian(4, retireSeq) + U32Bytes(committedPc) + U32Bytes(committedFp));
      return None;
    }
  }

  /** A request that faults has sent nothing, and what the handler leaves is consistent. */
  lemma HandledQuietly(e: State, r: Request)
    requires e.Valid() && e.rx == [] && e.tx == [] && Representable(e) && r.Valid() && InSubset(r.Op())
    ensures var h := Handle(e, r);
            && h.state.Valid() && h.state.rx == [] && (h.fault.Some? ==> h.state.tx == [])
            && h == (if r.Retire? then HandleRetire(e, r) else HandleInstruction(e, r))
  {
    HandleStages(e, r);
    hide Decide, EncodeResponse, ResultPayload, RetiredPayload, Crc, Request.Valid;
  }

  // ----- whole runs -----

  function EndpointAfter(inputs: seq<Input>): (e: State)
    ensures e.Valid()
  {
    if inputs == [] then POWER_ON else
    var last := |inputs| - 1;
    var before := EndpointAfter(inputs[..last]);
    StepKeepsValid(before, inputs[last]);
    Endpoint.Step(before, inputs[last])
  }

  /** What the executor's pending response is an answer to, after the inputs. */
  function EchoAfter(inputs: seq<Input>): Echo {
    if inputs == [] then Same else
    var last := |inputs| - 1;
    NextEcho(EndpointAfter(inputs[..last]), EchoAfter(inputs[..last]), inputs[last])
  }

  /** No edge of the run completes a frame of an opcode that only the endpoint executes. */
  predicate RunInScope(inputs: seq<Input>) {
    forall k :: 0 <= k < |inputs| ==> InScope(EndpointAfter(inputs[..k]), inputs[k])
  }

  /** What the executor showed at edge `k` is what the endpoint shows there, but for the echo. */
  predicate AlikeAt(inputs: seq<Input>, k: nat, record: Record)
    requires k < |inputs|
  {
    var e, echo := EndpointAfter(inputs[..k]), EchoAfter(inputs[..k]);
    Sending(e.tx, echo) && record == Shown(RecordOf(e, inputs[k]), e.tx, echo)
  }

  /** Bisimulation over whole runs, from power-on: at every edge the executor's record is the one
      the endpoint and the echo determine, and so is its state at the end. */
  method DriveAlike(inputs: seq<Input>) returns (executor: PacketExecutor, records: seq<Record>)
    requires RunInScope(inputs) && |inputs| < U32_MAX
    ensures |records| == |inputs|
    ensures forall k :: 0 <= k < |inputs| ==> AlikeAt(inputs, k, records[k])
    ensures Bisimilar(executor.View(), EndpointAfter(inputs), EchoAfter(inputs))
  {
    NothingYet(inputs);
    hide Bisimilar, InScope, EndpointAfter, EchoAfter, Endpoint.Step, NextEcho, AlikeAt, Image, Sending, Shown, RecordOf,
      State.Valid, Echoed;
    executor := new PacketExecutor();
    records := [];
    for k := 0 to |inputs|
      invariant Bisimilar(executor.View(), EndpointAfter(inputs[..k]), EchoAfter(inputs[..k])) && executor.retireSeq <= k
      invariant fresh(executor)
      invariant |records| == k
      invariant forall j :: 0 <= j < k ==> AlikeAt(inputs, j, records[j])
    {
      AfterOneMore(inputs, k);
      ShownAlike(executor.View(), EndpointAfter(inputs[..k]), EchoAfter(inputs[..k]));
      var record := executor.Step(inputs[k], EndpointAfter(inputs[..k]), EchoAfter(inputs[..k]));
      AlikeHere(inputs, k, record);
      records := records + [record];
    }
    assert inputs[..|inputs|] == inputs;
  }

  lemma NothingYet(inputs: seq<Input>)
    ensures EndpointAfter(inputs[..0]) == POWER_ON && EchoAfter(inputs[..0]) == Same && Bisimilar(Image(POWER_ON), POWER_ON, Same)
  {
    ImageBisimilar(POWER_ON);
  }

  lemma AlikeHere(inputs: seq<Input>, k: nat, record: Record)
    requires k < |inputs| && Sending(EndpointAfter(inputs[..k]).tx, EchoAfter(inputs[..k]))
    requires record == Shown(RecordOf(EndpointAfter(inputs[..k]), inputs[k]), EndpointAfter(inputs[..k]).tx, EchoAfter(inputs[..k]))
    ensures AlikeAt(inputs, k, record)
  {
    hide EndpointAfter, EchoAfter, Sending, Shown, RecordOf;
  }

  lemma AfterOneMore(inputs: seq<Input>, k: nat)
    requires k < |inputs|
    ensures EndpointAfter(inputs[..k + 1]) == Endpoint.Step(EndpointAfter(inputs[..k]), inputs[k])
    ensures EchoAfter(inputs[..k + 1]) == NextEcho(EndpointAfter(inputs[..k]), EchoAfter(inputs[..k]), inputs[k])
  {
    assert inputs[..k + 1][..k] == inputs[..k];
    hide Endpoint.Step, NextEcho;
  }

  /** The edge completes a frame whose payload does not decode, under the given prefix. */
  predicate CompletesUndecodable(inputs: seq<Input>, j: nat, echo: Echo)
    requires j < |inputs|
  {
    var e, i := EndpointAfter(inputs[..j]), inputs[j];
    Accepting(e, i) && CompletesFrame(e) && IsWholeFrame(e.rx + [i.rxData]) && EchoOf(e.rx + [i.rxData]) == echo && echo.Prefixed?
  }

  /** Every echo comes from the last frame: the two can differ only while they answer a frame whose
      payload did not decode. */
  lemma {:induction false} EchoComesFromFrame(inputs: seq<Input>)
    requires EchoAfter(inputs).Prefixed?
    ensures exists j :: 0 <= j < |inputs| && CompletesUndecodable(inputs, j, EchoAfter(inputs))
    decreases |inputs|
  {
    hide EchoOf, Endpoint.Step, IsWholeFrame, CompletesFrame;
    var last := |inputs| - 1;
    var e := EndpointAfter(inputs[..last]);
    if e.tx != [] {
      EchoComesFromFrame(inputs[..last]);
      var j :| 0 <= j < last && CompletesUndecodable(inputs[..last], j, EchoAfter(inputs[..last]));
      assert inputs[..last][..j] == inputs[..j];
      assert CompletesUndecodable(inputs, j, EchoAfter(inputs));
    } else {
      assert CompletesUndecodable(inputs, last, EchoAfter(inputs));
    }
  }

  /** The records of an edge differ exactly when a byte is on the lane in which the two answers differ;
      then it belongs to the transaction id or the CRC, and the echoed prefix is not zero. */
  lemma RecordsDiffer(e: State, echo: Echo, i: Input)
    requires Sending(e.tx, echo)
    ensures Shown(RecordOf(e, i), e.tx, echo) != RecordOf(e, i) <==> e.tx != [] && Echoed(e.tx, echo)[0] != e.tx[0]
    ensures e.tx != [] && Echoed(e.tx, echo)[0] != e.tx[0] ==>
      && echo.Prefixed? && echo.txnId != 0
      && (5 <= FAULT_BYTES - |e.tx| < 9 || 10 <= FAULT_BYTES - |e.tx| < 14)
  {
    hide EncodeResponse;
    match echo
    case Same =>
    case Prefixed(status, txnId, detail) =>
      ResponsesDiffer(status, txnId, detail);
      var x, y := EncodeResponse(FaultResponse(status, txnId, detail)), EncodeResponse(FaultResponse(status, 0, detail));
      var left := FAULT_BYTES - |e.tx|;
      if e.tx != [] {
        assert x[left..][0] == x[left] && y[left..][0] == y[left];
        assert left < 5 ==> x[left] == x[..5][left] && y[left] == y[..5][left];
      }
  }
}
