/** The constants and value types of the LSC-1 transaction protocol, version 1. */
module Protocol {
  import opened Outcomes
  import opened Bytes
  import opened Ghash

  const PROTOCOL_VERSION: byte := 1
  const SOF_REQUEST: byte := 0xA1
  const SOF_RESPONSE: byte := 0x5A
  const REQUEST_HEADER_BYTES: nat := 6
  const RESPONSE_HEADER_BYTES: nat := 5
  const CRC_BYTES: nat := 4
  const MAX_PAYLOAD_BYTES: nat := 256
  const DEVICE_ID: u32 := 0x4C53_4331
  const DEVICE_FEATURES: u32 := 7
  const U32_MAX: nat := 0xFFFF_FFFF

  datatype Opcode =
    | XOR | MUL_NATIVE | SET_CONSTANT | DEREF_CELL | DEREF_PC | DEREF_FP | JUMP | BLAKE3_REQUEST
    | NEGOTIATE | SERVICE_RESPONSE | RETIRE | STATUS_QUERY
  {
    function Code(): byte {
      match this
      case XOR => 0x01
      case MUL_NATIVE => 0x02
      case SET_CONSTANT => 0x03
      case DEREF_CELL => 0x04
      case DEREF_PC => 0x05
      case DEREF_FP => 0x06
      case JUMP => 0x07
      case BLAKE3_REQUEST => 0x08
      case NEGOTIATE => 0x10
      case SERVICE_RESPONSE => 0x11
      case RETIRE => 0x12
      case STATUS_QUERY => 0x13
    }

    /** The fixed payload length of a request. */
    function PayloadBytes(): nat {
      match this
      case XOR => 77
      case MUL_NATIVE => 94
      case SET_CONSTANT => 51
      case DEREF_CELL => 81
      case DEREF_PC => 81
      case DEREF_FP => 81
      case JUMP => 103
      case BLAKE3_REQUEST => 190
      case NEGOTIATE => 7
      case SERVICE_RESPONSE => 42
      case RETIRE => 8
      case STATUS_QUERY => 0
    }
  }

  function OpcodeOf(code: byte): (r: Option<Opcode>)
    ensures r.Some? ==> r.value.Code() == code
  {
    if code == 0x01 then Some(XOR)
    else if code == 0x02 then Some(MUL_NATIVE)
    else if code == 0x03 then Some(SET_CONSTANT)
    else if code == 0x04 then Some(DEREF_CELL)
    else if code == 0x05 then Some(DEREF_PC)
    else if code == 0x06 then Some(DEREF_FP)
    else if code == 0x07 then Some(JUMP)
    else if code == 0x08 then Some(BLAKE3_REQUEST)
    else if code == 0x10 then Some(NEGOTIATE)
    else if code == 0x11 then Some(SERVICE_RESPONSE)
    else if code == 0x12 then Some(RETIRE)
    else if code == 0x13 then Some(STATUS_QUERY)
    else None
  }

  datatype Status =
    | OK | SERVICE_REQUIRED | RETIRED | INFO
    | BAD_SOF | BAD_VERSION | BAD_OPCODE | BAD_LENGTH | BAD_CRC | BAD_FLAGS | BAD_PROFILE | BAD_STATE
    | BAD_CELL | U32_OVERFLOW | BAD_POINTER | BAD_INVERSE | WRITE_CONFLICT | DEREF_MISMATCH
    | MUL_BACKSOLVE_ZERO | BAD_BRANCH_PROPOSAL | UNSUPPORTED_IN_PROFILE | BAD_SERVICE
    | RETIRE_MISMATCH | ABORTED | STATE_MISMATCH | INDEX_RANGE | ALIAS_INCONSISTENT
  {
    function Code(): byte {
      match this
      case OK => 0x00
      case SERVICE_REQUIRED => 0x01
      case RETIRED => 0x02
      case INFO => 0x03
      case BAD_SOF => 0x80
      case BAD_VERSION => 0x81
      case BAD_OPCODE => 0x82
      case BAD_LENGTH => 0x83
      case BAD_CRC => 0x84
      case BAD_FLAGS => 0x85
      case BAD_PROFILE => 0x86
      case BAD_STATE => 0x87
      case BAD_CELL => 0x88
      case U32_OVERFLOW => 0x89
      case BAD_POINTER => 0x8A
      case BAD_INVERSE => 0x8B
      case WRITE_CONFLICT => 0x8C
      case DEREF_MISMATCH => 0x8D
      case MUL_BACKSOLVE_ZERO => 0x8E
      case BAD_BRANCH_PROPOSAL => 0x8F
      case UNSUPPORTED_IN_PROFILE => 0x90
      case BAD_SERVICE => 0x91
      case RETIRE_MISMATCH => 0x92
      case ABORTED => 0x93
      case STATE_MISMATCH => 0x94
      case INDEX_RANGE => 0x95
      case ALIAS_INCONSISTENT => 0x96
    }

    predicate IsFault() {
      Code() >= 0x80
    }
  }

  function StatusOf(code: byte): (r: Option<Status>)
    ensures r.Some? ==> r.value.Code() == code
  {
    if code == 0x00 then Some(OK)
    else if code == 0x01 then Some(SERVICE_REQUIRED)
    else if code == 0x02 then Some(RETIRED)
    else if code == 0x03 then Some(INFO)
    else if code < 0x8C then FrameFaultOf(code)
    else ExecutionFaultOf(code)
  }

  function FrameFaultOf(code: byte): (r: Option<Status>)
    ensures r.Some? ==> r.value.Code() == code
  {
    if code == 0x80 then Some(BAD_SOF)
    else if code == 0x81 then Some(BAD_VERSION)
    else if code == 0x82 then Some(BAD_OPCODE)
    else if code == 0x83 then Some(BAD_LENGTH)
    else if code == 0x84 then Some(BAD_CRC)
    else if code == 0x85 then Some(BAD_FLAGS)
    else if code == 0x86 then Some(BAD_PROFILE)
    else if code == 0x87 then Some(BAD_STATE)
    else if code == 0x88 then Some(BAD_CELL)
    else if code == 0x89 then Some(U32_OVERFLOW)
    else if code == 0x8A then Some(BAD_POINTER)
    else if code == 0x8B then Some(BAD_INVERSE)
    else None
  }

  function ExecutionFaultOf(code: byte): (r: Option<Status>)
    ensures r.Some? ==> r.value.Code() == code
  {
    if code == 0x8C then Some(WRITE_CONFLICT)
    else if code == 0x8D then Some(DEREF_MISMATCH)
    else if code == 0x8E then Some(MUL_BACKSOLVE_ZERO)
    else if code == 0x8F then Some(BAD_BRANCH_PROPOSAL)
    else if code == 0x90 then Some(UNSUPPORTED_IN_PROFILE)
    else if code == 0x91 then Some(BAD_SERVICE)
    else if code == 0x92 then Some(RETIRE_MISMATCH)
    else if code == 0x93 then Some(ABORTED)
    else if code == 0x94 then Some(STATE_MISMATCH)
    else if code == 0x95 then Some(INDEX_RANGE)
    else if code == 0x96 then Some(ALIAS_INCONSISTENT)
    else None
  }

  lemma StatusOfCode(s: Status)
    ensures StatusOf(s.Code()) == Some(s)
  {
  }

  lemma OpcodeOfCode(op: Opcode)
    ensures OpcodeOf(op.Code()) == Some(op)
  {
  }

  /** Which reading of the disputed opcodes is in force. */
  datatype Profile = FORWARD_ONLY | INTERPRETER_COMPAT {
    function Code(): byte {
      if FORWARD_ONLY? then 0 else 1
    }
  }

  const DEFAULT_PROFILE: Profile := INTERPRETER_COMPAT

  /** `ProtocolFault`: a response status and a disambiguating detail byte. */
  datatype Fault = Fault(status: Status, detail: byte)

  type Checked<+T> = Result<T, Fault>

  function Reject<T>(status: Status): Checked<T> {
    Err(Fault(status, 0))
  }

  /** A host-supplied write-once memory cell. */
  datatype Cell = Cell(present: bool, value: F128) {
    /** An absent cell carries no value. */
    predicate Canonical() {
      !present ==> value == 0
    }
  }

  const ABSENT: Cell := Cell(false, 0)

  datatype Write = Write(address: u32, value: F128)

  datatype DeferredEquality = DeferredEquality(target: u32, local: u32)

  /** u32 address arithmetic that faults instead of wrapping. */
  function CheckedAdd(left: nat, right: nat): Checked<u32> {
    if left + right > U32_MAX then Reject(U32_OVERFLOW) else Ok(left + right)
  }
}
