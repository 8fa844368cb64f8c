/** Request payloads: the builders, the decoder, and their exact agreement. */
module Requests {
  import opened Outcomes
  import opened Bytes
  import opened Ghash
  import opened Protocol
  import opened Wire

  /** `_read_preamble`. */
  datatype Preamble = Preamble(txnId: u32, pc: u32, fp: u32, profile: Profile)

  datatype DerefMode = ModeCell | ModePc | ModeFp

  datatype Request =
    | Xor(head: Preamble, offsets: seq<u32>, cells: seq<Cell>)
    | Mul(head: Preamble, offsets: seq<u32>, cells: seq<Cell>, inverse: Cell)
    | SetConstant(head: Preamble, offset: u32, constant: F128, cell: Cell)
    | Deref(mode: DerefMode, head: Preamble, alpha: u32, beta: u32, gamma: u32,
            pointer: Cell, base: u32, target: Cell, local: Cell)
    | Jump(head: Preamble, offsets: seq<u32>, cells: seq<Cell>,
           taken: bool, destPc: u32, destFp: u32, inverse: Cell)
    | Blake3(head: Preamble, messageOffsets: seq<u32>, cvOffset: u32, outOffset: u32, metadata: F128, cells: seq<Cell>)
    | Negotiate(versionMin: byte, versionMax: byte, profile: Profile, hostFeatures: u32)
    | ServiceResponse(txnId: u32, serviceId: u32, kind: byte, digest0: F128, digest1: F128)
    | Retire(txnId: u32, resultCrc: u32)
    | StatusQuery
  {
    function Op(): Opcode {
      match this
      case Xor(_, _, _) => XOR
      case Mul(_, _, _, _) => MUL_NATIVE
      case SetConstant(_, _, _, _) => SET_CONSTANT
      case Deref(mode, _, _, _, _, _, _, _, _) =>
        (match mode case ModeCell => DEREF_CELL case ModePc => DEREF_PC case ModeFp => DEREF_FP)
      case Jump(_, _, _, _, _, _, _) => JUMP
      case Blake3(_, _, _, _, _, _) => BLAKE3_REQUEST
      case Negotiate(_, _, _, _) => NEGOTIATE
      case ServiceResponse(_, _, _, _, _) => SERVICE_RESPONSE
      case Retire(_, _) => RETIRE
      case StatusQuery => STATUS_QUERY
    }

    /** The transaction id a fault about this request echoes. */
    function TxnId(): u32 {
      match this
      case Negotiate(_, _, _, _) => 0
      case ServiceResponse(txnId, _, _, _, _) => txnId
      case Retire(txnId, _) => txnId
      case StatusQuery => 0
      case _ => head.txnId
    }

    /** The shape every built and every decoded request has. */
    predicate Valid() {
      match this
      case Xor(_, offsets, cells) => |offsets| == 3 && |cells| == 3 && AllCanonical(cells)
      case Mul(_, offsets, cells, inverse) =>
        |offsets| == 3 && |cells| == 3 && AllCanonical(cells) && inverse.Canonical()
      case SetConstant(_, _, _, cell) => cell.Canonical()
      case Deref(_, _, _, _, _, pointer, _, target, local) =>
        pointer.Canonical() && target.Canonical() && local.Canonical()
      case Jump(_, offsets, cells, _, _, _, inverse) =>
        |offsets| == 3 && |cells| == 3 && AllCanonical(cells) && inverse.Canonical()
      case Blake3(_, messageOffsets, _, _, _, cells) =>
        |messageOffsets| == 4 && |cells| == 8 && AllCanonical(cells)
      case _ => true
    }
  }

  predicate AllCanonical(cells: seq<Cell>) {
    forall i :: 0 <= i < |cells| ==> cells[i].Canonical()
  }

  const PREAMBLE: seq<Kind> := [KU32, KU32, KU32, KProfile, KZero(1)]
  const THREE_WORDS: seq<Kind> := [KU32, KU32, KU32]
  const THREE_CELLS: seq<Kind> := [KCell, KCell, KCell]
  const FOUR_WORDS: seq<Kind> := [KU32, KU32, KU32, KU32]
  const EIGHT_CELLS: seq<Kind> := [KCell, KCell, KCell, KCell, KCell, KCell, KCell, KCell]

  /** The fields each opcode's payload consists of, in reading order. */
  function Schema(op: Opcode): seq<Kind> {
    match op
    case XOR => PREAMBLE + THREE_WORDS + THREE_CELLS
    case MUL_NATIVE => PREAMBLE + THREE_WORDS + THREE_CELLS + [KCell]
    case SET_CONSTANT => PREAMBLE + [KU32, KF128, KCell]
    case DEREF_CELL => PREAMBLE + THREE_WORDS + [KCell, KU32, KCell, KCell]
    case DEREF_PC => PREAMBLE + THREE_WORDS + [KCell, KU32, KCell, KCell]
    case DEREF_FP => PREAMBLE + THREE_WORDS + [KCell, KU32, KCell, KCell]
    case JUMP => PREAMBLE + THREE_WORDS + THREE_CELLS + [KTaken, KU32, KU32, KCell]
    case BLAKE3_REQUEST => PREAMBLE + FOUR_WORDS + [KU32, KU32, KF128] + EIGHT_CELLS
    case NEGOTIATE => [KByte, KByte, KProfile, KU32]
    case SERVICE_RESPONSE => [KU32, KU32, KByte, KZero(2), KF128, KF128]
    case RETIRE => [KU32, KU32]
    case STATUS_QUERY => []
  }

  lemma {:induction false} SchemaAppend(a: seq<Kind>, b: seq<Kind>)
    ensures SchemaBytes(a + b) == SchemaBytes(a) + SchemaBytes(b)
  {
    if a == [] {
      assert a + b == b;
    } else {
      assert (a + b)[0] == a[0] && (a + b)[1..] == a[1..] + b;
      SchemaAppend(a[1..], b);
    }
  }

  /** The published payload lengths are the lengths of the schemas. */
  lemma SchemaLength(op: Opcode)
    ensures SchemaBytes(Schema(op)) == op.PayloadBytes()
  {
    ShortSchemas();
    SchemaAppend(PREAMBLE, THREE_WORDS);
    SchemaAppend(PREAMBLE + THREE_WORDS, THREE_CELLS);
    match op {
      case MUL_NATIVE => SchemaAppend(PREAMBLE + THREE_WORDS + THREE_CELLS, [KCell]);
      case SET_CONSTANT => SchemaAppend(PREAMBLE, [KU32, KF128, KCell]);
      case JUMP => SchemaAppend(PREAMBLE + THREE_WORDS + THREE_CELLS, [KTaken, KU32, KU32, KCell]);
      case BLAKE3_REQUEST =>
        SchemaAppend(PREAMBLE, FOUR_WORDS);
        SchemaAppend(PREAMBLE + FOUR_WORDS, [KU32, KU32, KF128]);
        SchemaAppend(PREAMBLE + FOUR_WORDS + [KU32, KU32, KF128], EIGHT_CELLS);
      case DEREF_CELL => SchemaAppend(PREAMBLE + THREE_WORDS, [KCell, KU32, KCell, KCell]);
      case DEREF_PC => SchemaAppend(PREAMBLE + THREE_WORDS, [KCell, KU32, KCell, KCell]);
      case DEREF_FP => SchemaAppend(PREAMBLE + THREE_WORDS, [KCell, KU32, KCell, KCell]);
      case _ =>
    }
  }

  lemma ShortSchemas()
    ensures SchemaBytes(PREAMBLE) == 14 && SchemaBytes(THREE_WORDS) == 12 && SchemaBytes(FOUR_WORDS) == 16
    ensures SchemaBytes(THREE_CELLS) == 51 && SchemaBytes(EIGHT_CELLS) == 136 && SchemaBytes([KCell]) == 17
    ensures SchemaBytes([KU32, KF128, KCell]) == 37 && SchemaBytes([KCell, KU32, KCell, KCell]) == 55
    ensures SchemaBytes([KTaken, KU32, KU32, KCell]) == 26 && SchemaBytes([KU32, KU32, KF128]) == 24
    ensures SchemaBytes([KByte, KByte, KProfile, KU32]) == 7
    ensures SchemaBytes([KU32, KU32, KByte, KZero(2), KF128, KF128]) == 42
    ensures SchemaBytes([KU32, KU32]) == 8
  {
    assert FOUR_WORDS == [KU32] + THREE_WORDS;
    assert SchemaBytes([KCell, KCell, KCell, KCell]) == 68;
    SchemaAppend([KCell, KCell, KCell, KCell], [KCell, KCell, KCell, KCell]);
    assert EIGHT_CELLS == [KCell, KCell, KCell, KCell] + [KCell, KCell, KCell, KCell];
    assert SchemaBytes([KProfile, KZero(1)]) == 2;
    SchemaAppend(THREE_WORDS, [KProfile, KZero(1)]);
    assert PREAMBLE == THREE_WORDS + [KProfile, KZero(1)];
    assert SchemaBytes([KF128, KF128]) == 32;
    SchemaAppend([KU32, KU32, KByte, KZero(2)], [KF128, KF128]);
    assert [KU32, KU32, KByte, KZero(2), KF128, KF128] == [KU32, KU32, KByte, KZero(2)] + [KF128, KF128];
  }

  // ----- requests and their fields -----

  function HeadFields(h: Preamble): seq<Field> {
    [FU32(h.txnId), FU32(h.pc), FU32(h.fp), FProfile(h.profile), FZero]
  }

  function WordFields(words: seq<u32>): seq<Field> {
    seq(|words|, i requires 0 <= i < |words| => FU32(words[i]))
  }

  function CellFields(cells: seq<Cell>): seq<Field> {
    seq(|cells|, i requires 0 <= i < |cells| => FCell(cells[i]))
  }

  /** What the builders lay out. */
  function Fields(r: Request): seq<Field> {
    match r
    case Xor(h, offsets, cells) => HeadFields(h) + WordFields(offsets) + CellFields(cells)
    case Mul(h, offsets, cells, inverse) => HeadFields(h) + WordFields(offsets) + CellFields(cells) + [FCell(inverse)]
    case SetConstant(h, offset, constant, cell) => HeadFields(h) + [FU32(offset), FF128(constant), FCell(cell)]
    case Deref(_, h, alpha, beta, gamma, pointer, base, target, local) =>
      HeadFields(h) + WordFields([alpha, beta, gamma]) + [FCell(pointer), FU32(base), FCell(target), FCell(local)]
    case Jump(h, offsets, cells, taken, destPc, destFp, inverse) =>
      HeadFields(h) + WordFields(offsets) + CellFields(cells)
      + [FTaken(taken), FU32(destPc), FU32(destFp), FCell(inverse)]
    case Blake3(h, offsets, cv, out, metadata, cells) =>
      HeadFields(h) + WordFields(offsets) + [FU32(cv), FU32(out), FF128(metadata)] + CellFields(cells)
    case Negotiate(low, high, profile, features) => [FByte(low), FByte(high), FProfile(profile), FU32(features)]
    case ServiceResponse(txnId, serviceId, kind, d0, d1) =>
      [FU32(txnId), FU32(serviceId), FByte(kind), FZero, FF128(d0), FF128(d1)]
    case Retire(txnId, crc) => [FU32(txnId), FU32(crc)]
    case StatusQuery => []
  }

  function HeadOf(f: seq<Field>): Preamble
    requires |f| >= 5 && f[0].FU32? && f[1].FU32? && f[2].FU32? && f[3].FProfile?
  {
    Preamble(f[0].word, f[1].word, f[2].word, f[3].profile)
  }

  function WordsOf(f: seq<Field>): seq<u32>
    requires forall i :: 0 <= i < |f| ==> f[i].FU32?
  {
    seq(|f|, i requires 0 <= i < |f| => f[i].word)
  }

  function CellsOf(f: seq<Field>): seq<Cell>
    requires forall i :: 0 <= i < |f| ==> f[i].FCell?
  {
    seq(|f|, i requires 0 <= i < |f| => f[i].cell)
  }

  /** What the decoder makes of the fields it read. */
  function FromFields(op: Opcode, f: seq<Field>): Request
    requires Matches(Schema(op), f)
  {
    assert forall i :: 0 <= i < |f| ==> Fits(Schema(op)[i], f[i]);
    match op
    case XOR => Xor(HeadOf(f), WordsOf(f[5..8]), CellsOf(f[8..11]))
    case MUL_NATIVE => Mul(HeadOf(f), WordsOf(f[5..8]), CellsOf(f[8..11]), f[11].cell)
    case SET_CONSTANT => SetConstant(HeadOf(f), f[5].word, f[6].element, f[7].cell)
    case DEREF_CELL => DerefOf(ModeCell, f)
    case DEREF_PC => DerefOf(ModePc, f)
    case DEREF_FP => DerefOf(ModeFp, f)
    case JUMP =>
      Jump(HeadOf(f), WordsOf(f[5..8]), CellsOf(f[8..11]), f[11].taken, f[12].word, f[13].word, f[14].cell)
    case BLAKE3_REQUEST =>
      Blake3(HeadOf(f), WordsOf(f[5..9]), f[9].word, f[10].word, f[11].element, CellsOf(f[12..20]))
    case NEGOTIATE => Negotiate(f[0].b, f[1].b, f[2].profile, f[3].word)
    case SERVICE_RESPONSE => ServiceResponse(f[0].word, f[1].word, f[2].b, f[4].element, f[5].element)
    case RETIRE => Retire(f[0].word, f[1].word)
    case STATUS_QUERY => StatusQuery
  }

  function DerefOf(mode: DerefMode, f: seq<Field>): Request
    requires Matches(Schema(DEREF_CELL), f)
  {
    assert forall i :: 0 <= i < |f| ==> Fits(Schema(DEREF_CELL)[i], f[i]);
    Deref(mode, HeadOf(f), f[5].word, f[6].word, f[7].word, f[8].cell, f[9].word, f[10].cell, f[11].cell)
  }

  lemma FieldsMatch(r: Request)
    requires r.Valid()
    ensures Matches(Schema(r.Op()), Fields(r))
    ensures FromFields(r.Op(), Fields(r)) == r
  {
    if r.Xor? {
      XorMatches(r);
    } else if r.Mul? {
      MulMatches(r);
    } else if r.Jump? {
      JumpMatches(r);
    } else if r.Blake3? {
      Blake3Matches(r);
    } else if r.Deref? {
      DerefMatches(r);
    }
  }

  lemma DerefMatches(r: Request)
    requires r.Valid() && r.Deref?
    ensures Matches(Schema(r.Op()), Fields(r))
    ensures FromFields(r.Op(), Fields(r)) == r
  {
    assert Fields(r)[5..8] == WordFields([r.alpha, r.beta, r.gamma]);
  }

  lemma XorMatches(r: Request)
    requires r.Valid() && r.Xor?
    ensures Matches(Schema(XOR), Fields(r))
    ensures FromFields(XOR, Fields(r)) == r
  {
    var f := Fields(r);
    assert |f| == 11 && f[..5] == HeadFields(r.head);
    assert f[5..8] == WordFields(r.offsets);
    assert f[8..11] == CellFields(r.cells);
    assert WordsOf(f[5..8]) == r.offsets && CellsOf(f[8..11]) == r.cells;
  }

  lemma MulMatches(r: Request)
    requires r.Valid() && r.Mul?
    ensures Matches(Schema(MUL_NATIVE), Fields(r))
    ensures FromFields(MUL_NATIVE, Fields(r)) == r
  {
    var f := Fields(r);
    assert |f| == 12 && f[..5] == HeadFields(r.head) && f[11] == FCell(r.inverse);
    assert f[5..8] == WordFields(r.offsets);
    assert f[8..11] == CellFields(r.cells);
    assert WordsOf(f[5..8]) == r.offsets && CellsOf(f[8..11]) == r.cells;
  }

  lemma JumpMatches(r: Request)
    requires r.Valid() && r.Jump?
    ensures Matches(Schema(JUMP), Fields(r))
    ensures FromFields(JUMP, Fields(r)) == r
  {
    var f := Fields(r);
    assert f[5..8] == WordFields(r.offsets);
    assert f[8..11] == CellFields(r.cells);
  }

  lemma Blake3Matches(r: Request)
    requires r.Valid() && r.Blake3?
    ensures Matches(Schema(r.Op()), Fields(r))
    ensures FromFields(r.Op(), Fields(r)) == r
  {
    var f := Fields(r);
    assert f[5..9] == WordFields(r.messageOffsets);
    assert f[12..20] == CellFields(r.cells);
  }

  lemma FieldsOfDecoded(op: Opcode, f: seq<Field>)
    requires Matches(Schema(op), f)
    ensures var r := FromFields(op, f); r.Op() == op && r.Valid() && Fields(r) == f
  {
    assert forall i :: 0 <= i < |f| ==> Fits(Schema(op)[i], f[i]);
    if op == XOR || op == MUL_NATIVE {
      BinaryOfDecoded(op, f);
    } else if op == JUMP {
      JumpOfDecoded(f);
    } else if op == BLAKE3_REQUEST {
      Blake3OfDecoded(f);
    }
  }

  lemma BinaryOfDecoded(op: Opcode, f: seq<Field>)
    requires op == XOR || op == MUL_NATIVE
    requires Matches(Schema(op), f)
    ensures var r := FromFields(op, f); r.Op() == op && r.Valid() && Fields(r) == f
  {
    assert forall i :: 0 <= i < |f| ==> Fits(Schema(op)[i], f[i]);
    assert WordFields(WordsOf(f[5..8])) == f[5..8];
    assert CellFields(CellsOf(f[8..11])) == f[8..11];
  }

  lemma JumpOfDecoded(f: seq<Field>)
    requires Matches(Schema(JUMP), f)
    ensures var r := FromFields(JUMP, f); r.Op() == JUMP && r.Valid() && Fields(r) == f
  {
    assert forall i :: 0 <= i < |f| ==> Fits(Schema(JUMP)[i], f[i]);
    assert WordFields(WordsOf(f[5..8])) == f[5..8];
    assert CellFields(CellsOf(f[8..11])) == f[8..11];
  }

  lemma Blake3OfDecoded(f: seq<Field>)
    requires Matches(Schema(BLAKE3_REQUEST), f)
    ensures var r := FromFields(BLAKE3_REQUEST, f); r.Op() == BLAKE3_REQUEST && r.Valid() && Fields(r) == f
  {
    assert forall i :: 0 <= i < |f| ==> Fits(Schema(BLAKE3_REQUEST)[i], f[i]);
    assert |f| == 20;
    assert HeadFields(HeadOf(f)) == f[..5];
    assert WordFields(WordsOf(f[5..9])) == f[5..9];
    assert [FU32(f[9].word), FU32(f[10].word), FF128(f[11].element)] == f[9..12];
    assert CellFields(CellsOf(f[12..20])) == f[12..20];
    assert f == f[..5] + f[5..9] + f[9..12] + f[12..20];
  }

  // ----- payloads -----

  /** The payload a builder produces. */
  function Payload(r: Request): seq<byte> {
    Flatten(Fields(r))
  }

  /** `decode_request_payload`. */
  function DecodePayload(op: Opcode, payload: seq<byte>): Checked<Request> {
    FlattenParse(Schema(op), payload);
    var f :- Parse(Schema(op), payload);
    Ok(FromFields(op, f))
  }

  method DecodeRequestPayload(op: Opcode, payload: seq<byte>) returns (r: Checked<Request>)
    ensures r == DecodePayload(op, payload)
  {
    var reader := new Reader(payload);
    var fields := reader.ReadAll(Schema(op));
    FlattenParse(Schema(op), payload);
    match fields {
      case Ok(f) => r := Ok(FromFields(op, f));
      case Err(fault) => r := Err(fault);
    }
  }

  /** Every built payload has the fixed length of its opcode and decodes to what was built. */
  lemma PayloadDecodes(r: Request)
    requires r.Valid()
    ensures |Payload(r)| == r.Op().PayloadBytes()
    ensures DecodePayload(r.Op(), Payload(r)) == Ok(r)
  {
    FieldsMatch(r);
    ParseFlatten(Schema(r.Op()), Fields(r));
    SchemaLength(r.Op());
  }

  /** Every accepted payload is the one its decoded request would build; a payload of
      the right length is never refused for its length. */
  lemma DecodedRebuilds(op: Opcode, payload: seq<byte>)
    ensures match DecodePayload(op, payload)
            case Ok(r) => r.Op() == op && r.Valid() && Payload(r) == payload
            case Err(fault) => |payload| == op.PayloadBytes() ==> fault.status != BAD_LENGTH
  {
    FlattenParse(Schema(op), payload);
    SchemaLength(op);
    match Parse(Schema(op), payload)
    case Ok(f) => FieldsOfDecoded(op, f);
    case Err(_) =>
  }
}
