/** Frames and fields that are not as built: which fault each deviation is refused with. */
module FrameLaws {
  import opened Outcomes
  import opened Bytes
  import opened Protocol
  import opened Wire
  import opened Frames
  import opened Crc32
  import opened Exchange
  import Endpoint

  // ----- responses -----

  /** A built response with one of its two leading bytes replaced, cut short, or followed by more. */
  lemma DeviantResponse(r: Response, b: byte, cut: nat, more: seq<byte>)
    requires r.Encodable() && cut < |EncodeResponse(r)|
    ensures var frame := EncodeResponse(r);
            && (b != 0x5A ==> DecodeResponse(frame[0 := b]) == Err(Malformed(BAD_SOF)))
            && (b != 1 ==> DecodeResponse(frame[1 := b]) == Err(Malformed(BAD_VERSION)))
            && DecodeResponse(frame[..cut]) == Err(Malformed(BAD_LENGTH))
            && (more != [] ==> DecodeResponse(frame + more) == Err(Malformed(BAD_LENGTH)))
  {
    hide Crc, StatusOf, Status.Code, U32Of, U32Bytes;
    var frame := EncodeResponse(r);
    assert frame[0] == 0x5A && frame[1] == 1;
    assert U16Of(frame[3], frame[4]) == |r.payload| && |frame| == 9 + |r.payload|;
  }

  /** A sealed response with a status byte that is none. */
  lemma UnknownStatusByte(code: byte, payload: seq<byte>)
    requires 4 <= code < 0x80 || code > 0x96
    requires |payload| < 0x1_0000
    ensures DecodeResponse(Seal([SOF_RESPONSE, PROTOCOL_VERSION, code] + U16Bytes(|payload|) + payload)) == Err(UnknownStatus)
  {
    hide Crc, U32Of, U32Bytes;
    var body := [SOF_RESPONSE, PROTOCOL_VERSION, code] + U16Bytes(|payload|) + payload;
    SealOpens(body, Crc(body));
    NoSuchStatus(code);
    hide StatusOf;
    var frame := Seal(body);
    assert frame == body + U32Bytes(Crc(body));
    assert frame[3] == body[3] && frame[4] == body[4] && U16Of(frame[3], frame[4]) == |payload|;
  }

  lemma NoSuchStatus(code: byte)
    requires 4 <= code < 0x80 || code > 0x96
    ensures StatusOf(code) == None
  {
  }

  // ----- the code tables -----

  /** The faults in the order of the protocol's table. */
  const FAULTS: seq<Status> := [
    BAD_SOF, BAD_VERSION, BAD_OPCODE, BAD_LENGTH, BAD_CRC, BAD_FLAGS, BAD_PROFILE, BAD_STATE,
    BAD_CELL, U32_OVERFLOW, BAD_POINTER, BAD_INVERSE, WRITE_CONFLICT, DEREF_MISMATCH,
    MUL_BACKSOLVE_ZERO, BAD_BRANCH_PROPOSAL, UNSUPPORTED_IN_PROFILE, BAD_SERVICE,
    RETIRE_MISMATCH, ABORTED, STATE_MISMATCH, INDEX_RANGE, ALIAS_INCONSISTENT]

  const INSTRUCTIONS: seq<Opcode> :=
    [XOR, MUL_NATIVE, SET_CONSTANT, DEREF_CELL, DEREF_PC, DEREF_FP, JUMP, BLAKE3_REQUEST]

  const CONTROLS: seq<Opcode> := [NEGOTIATE, SERVICE_RESPONSE, RETIRE, STATUS_QUERY]

  /** Consecutive codes: the faults from 0x80, the instructions from 1, the controls from 0x10. */
  lemma CodesInOrder()
    ensures |FAULTS| == 23 && forall i :: 0 <= i < 23 ==> FAULTS[i].Code() == 0x80 + i
    ensures OK.Code() == 0 && SERVICE_REQUIRED.Code() == 1 && RETIRED.Code() == 2 && INFO.Code() == 3
    ensures forall i :: 0 <= i < 8 ==> INSTRUCTIONS[i].Code() == 1 + i
    ensures forall i :: 0 <= i < 4 ==> CONTROLS[i].Code() == 0x10 + i
  {
  }

  // ----- requests -----

  /** The body of a request frame with any version, opcode and flags. */
  function AnyBody(version: byte, op: byte, flags: byte, payload: seq<byte>): seq<byte>
    requires |payload| <= MAX_PAYLOAD_BYTES
  {
    [SOF_REQUEST, version, op, flags] + U16Bytes(|payload|) + payload
  }

  /** The endpoint on a whole frame: the CRC first, then version, flags and opcode; only then the payload. */
  lemma InspectionOrder(version: byte, op: byte, flags: byte, payload: seq<byte>, crc: u32)
    requires |payload| <= MAX_PAYLOAD_BYTES
    ensures var body := AnyBody(version, op, flags, payload);
            var frame := body + U32Bytes(crc);
            && Endpoint.IsWholeFrame(frame)
            && Endpoint.Inspect(frame) ==
                 if crc != Crc(body) then Endpoint.BadFrame(BAD_CRC, 0, 0)
                 else if version != 1 then Endpoint.BadFrame(BAD_VERSION, 0, 0)
                 else if flags != 0 then Endpoint.BadFrame(BAD_FLAGS, 0, 0)
                 else if op !in {1, 2, 3, 4, 5, 6, 7, 8, 16, 17, 18, 19} then Endpoint.BadFrame(BAD_OPCODE, 0, 0)
                 else Endpoint.InspectPayload(OpcodeOf(op).value, payload)
  {
    hide Crc, U32Of, U32Bytes, Endpoint.InspectPayload, OpcodeOf;
    var body := AnyBody(version, op, flags, payload);
    var frame := body + U32Bytes(crc);
    SealOpens(body, crc);
    KnownOpcodes(op);
    assert frame[4] == body[4] && frame[5] == body[5] && U16Of(frame[4], frame[5]) == |payload|;
    assert frame[REQUEST_HEADER_BYTES..|body|] == payload;
  }

  lemma KnownOpcodes(op: byte)
    ensures OpcodeOf(op).Some? <==> op in {1, 2, 3, 4, 5, 6, 7, 8, 16, 17, 18, 19}
  {
  }

  // ----- fields -----

  /** Why one field is refused. */
  function FieldFault(k: Kind, data: seq<byte>): Option<Fault>
    requires |data| == Width(k)
  {
    match k
    case KCell =>
      if data[0] >= 2 || (data[0] == 0 && exists i :: 1 <= i < 17 && data[i] != 0) then Some(Fault(BAD_CELL, 0)) else None
    case KProfile => if data[0] >= 2 then Some(Fault(BAD_PROFILE, 0)) else None
    case KZero(detail) => if data[0] >= 1 then Some(Fault(BAD_FLAGS, detail)) else None
    case KTaken => if data[0] >= 2 then Some(Fault(BAD_BRANCH_PROPOSAL, 3)) else None
    case _ => None
  }

  lemma FieldFaults(k: Kind, data: seq<byte>)
    requires |data| == Width(k)
    ensures match FieldFault(k, data)
            case Some(fault) => DecodeField(k, data) == Err(fault)
            case None => DecodeField(k, data).Ok?
  {
    if k == KCell {
      ZeroElement(data[1..]);
      assert forall i :: 1 <= i < 17 ==> data[i] == data[1..][i - 1];
      assert forall i :: 0 <= i < 16 ==> data[1..][i] == data[i + 1];
    }
    hide F128Of;
  }

  lemma ZeroElement(data: seq<byte>)
    requires |data| == 16
    ensures F128Of(data) == 0 <==> forall i :: 0 <= i < 16 ==> data[i] == 0
  {
    ZeroWord(data);
  }

  /** A payload of the right length is refused for its first refused field, in reading order. */
  lemma {:induction false} FirstRefusedField(schema: seq<Kind>, data: seq<byte>)
    requires |data| == SchemaBytes(schema)
    ensures match Parse(schema, data)
            case Ok(_) => forall i :: 0 <= i < |schema| ==> FieldFault(schema[i], FieldAt(schema, data, i)) == None
            case Err(fault) =>
              exists i :: 0 <= i < |schema| && FieldFault(schema[i], FieldAt(schema, data, i)) == Some(fault)
                          && forall j :: 0 <= j < i ==> FieldFault(schema[j], FieldAt(schema, data, j)) == None
  {
    hide DecodeField, FieldFault;
    if schema != [] {
      var w := Width(schema[0]);
      var rest, tail := schema[1..], data[w..];
      FieldFaults(schema[0], data[..w]);
      FirstRefusedField(rest, tail);
      assert forall i :: 0 < i < |schema| ==> schema[i] == rest[i - 1] && FieldAt(schema, data, i) == FieldAt(rest, tail, i - 1);
      if FieldFault(schema[0], data[..w]) == None {
        match Parse(rest, tail)
        case Ok(_) =>
        case Err(fault) =>
          var i :| 0 <= i < |rest| && FieldFault(rest[i], FieldAt(rest, tail, i)) == Some(fault)
                   && forall j :: 0 <= j < i ==> FieldFault(rest[j], FieldAt(rest, tail, j)) == None;
          assert FieldFault(schema[i + 1], FieldAt(schema, data, i + 1)) == Some(fault);
      }
    }
  }

  /** The bytes of field `i`. */
  function FieldAt(schema: seq<Kind>, data: seq<byte>, i: nat): (r: seq<byte>)
    requires i < |schema| && |data| == SchemaBytes(schema)
    ensures |r| == Width(schema[i])
  {
    if i == 0 then data[..Width(schema[0])] else FieldAt(schema[1..], data[Width(schema[0])..], i - 1)
  }
}
