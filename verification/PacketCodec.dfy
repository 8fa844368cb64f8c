/** The packet executor's own reader, and the instruction codec written on top of it. The codec
    accepts the same payloads as the endpoint's and refuses the others for the same reason. */
module PacketCodec {
  import opened Outcomes
  import opened Bytes
  import opened Ghash
  import opened Protocol
  import opened Wire
  import opened Requests

  predicate InSubset(op: Opcode) {
    op == XOR || op == MUL_NATIVE || op == SET_CONSTANT || op == RETIRE
  }

  // ----- reading a payload -----

  /** `Reader`. Each method's contract says what it does to the parse of the rest. */
  class PacketReader {
    const payload: seq<byte>
    var position: nat

    ghost predicate Valid()
      reads this
    {
      position <= |payload|
    }

    ghost function Rest(): seq<byte>
      requires Valid()
      reads this
    {
      payload[position..]
    }

    constructor (payload: seq<byte>)
      ensures Valid() && this.payload == payload && position == 0 && Rest() == payload
    {
      this.payload := payload;
      position := 0;
    }

    method Take(count: nat) returns (r: Checked<seq<byte>>)
      requires Valid()
      modifies this
      ensures Valid()
      ensures |old(Rest())| < count ==> r == Reject(BAD_LENGTH)
      ensures |old(Rest())| >= count ==> r == Ok(old(Rest())[..count]) && Rest() == old(Rest())[count..]
    {
      var end := position + count;
      if end > |payload| {
        return Reject(BAD_LENGTH);
      }
      assert payload[position..][..count] == payload[position..end] && payload[position..][count..] == payload[end..];
      r := Ok(payload[position..end]);
      position := end;
    }

    method U32(ghost more: seq<Kind>) returns (r: Checked<u32>)
      requires Valid()
      modifies this
      ensures Valid()
      ensures Parse([KU32] + more, old(Rest())) == Continued(r, v => [FU32(v)], more, Rest())
    {
      var data :- Take(4);
      return Ok(U32Of(data));
    }

    method Element(ghost more: seq<Kind>) returns (r: Checked<F128>)
      requires Valid()
      modifies this
      ensures Valid()
      ensures Parse([KF128] + more, old(Rest())) == Continued(r, v => [FF128(v)], more, Rest())
    {
      var data :- Take(16);
      return Ok(F128Of(data));
    }

    /** `cell`: a presence byte and a value. */
    method ReadCell(ghost more: seq<Kind>) returns (r: Checked<Cell>)
      requires Valid()
      modifies this
      ensures Valid()
      ensures Parse([KCell] + more, old(Rest())) == Continued(r, v => [FCell(v)], more, Rest())
      ensures r.Ok? ==> r.value.Canonical()
    {
      ghost var start := Rest();
      var presence :- Take(1);
      var data :- Take(16);
      assert |start| >= 17 && presence[0] == start[0] && data == start[1..17] == start[..17][1..];
      assert Rest() == start[17..];
      var value := F128Of(data);
      if presence[0] > 1 || (presence[0] == 0 && value != 0) {
        return Reject(BAD_CELL);
      }
      return Ok(Cell(presence[0] == 1, value));
    }

    method ReadProfile(ghost more: seq<Kind>) returns (r: Checked<Profile>)
      requires Valid()
      modifies this
      ensures Valid()
      ensures Parse([KProfile] + more, old(Rest())) == Continued(r, v => [FProfile(v)], more, Rest())
    {
      var code :- Take(1);
      if code[0] > 1 {
        return Reject(BAD_PROFILE);
      }
      return Ok(if code[0] == 0 then FORWARD_ONLY else INTERPRETER_COMPAT);
    }

    method Reserved(ghost more: seq<Kind>) returns (r: Checked<()>)
      requires Valid()
      modifies this
      ensures Valid()
      ensures Parse([KZero(1)] + more, old(Rest())) == Continued(r, v => [FZero], more, Rest())
    {
      var code :- Take(1);
      if code[0] != 0 {
        return Err(Fault(BAD_FLAGS, 1));
      }
      return Ok(());
    }

    method ReadHead(ghost more: seq<Kind>) returns (r: Checked<Preamble>)
      requires Valid()
      modifies this
      ensures Valid()
      ensures Parse(PREAMBLE + more, old(Rest())) == Continued(r, HeadFields, more, Rest())
    {
      hide Parse;
      HeadSchema(more);
      var txnId :- U32([KU32, KU32, KProfile, KZero(1)] + more);
      var pc :- U32([KU32, KProfile, KZero(1)] + more);
      var fp :- U32([KProfile, KZero(1)] + more);
      var profile :- ReadProfile([KZero(1)] + more);
      var _ :- Reserved(more);
      r := Ok(Preamble(txnId, pc, fp, profile));
      PrependFive(FU32(txnId), FU32(pc), FU32(fp), FProfile(profile), FZero, Parse(more, Rest()));
    }

    method ThreeWords(ghost more: seq<Kind>) returns (r: Checked<seq<u32>>)
      requires Valid()
      modifies this
      ensures Valid() && (r.Ok? ==> |r.value| == 3)
      ensures Parse(THREE_WORDS + more, old(Rest())) == Continued(r, WordFields, more, Rest())
    {
      hide Parse;
      ThreeSchema(KU32, more);
      var a :- U32([KU32, KU32] + more);
      var b :- U32([KU32] + more);
      var c :- U32(more);
      r := Ok([a, b, c]);
      PrependThree(FU32(a), FU32(b), FU32(c), Parse(more, Rest()));
      assert WordFields([a, b, c]) == [FU32(a), FU32(b), FU32(c)];
    }

    method ThreeCells(ghost more: seq<Kind>) returns (r: Checked<seq<Cell>>)
      requires Valid()
      modifies this
      ensures Valid() && (r.Ok? ==> |r.value| == 3 && AllCanonical(r.value))
      ensures Parse(THREE_CELLS + more, old(Rest())) == Continued(r, CellFields, more, Rest())
    {
      hide Parse;
      ThreeSchema(KCell, more);
      var a :- ReadCell([KCell, KCell] + more);
      var b :- ReadCell([KCell] + more);
      var c :- ReadCell(more);
      r := Ok([a, b, c]);
      PrependThree(FCell(a), FCell(b), FCell(c), Parse(more, Rest()));
      assert CellFields([a, b, c]) == [FCell(a), FCell(b), FCell(c)];
    }

    /** `finish`. */
    method Finish() returns (r: Checked<()>)
      requires Valid()
      ensures Parse([], Rest()) == match r case Ok(_) => Ok([]) case Err(fault) => Err(fault)
    {
      return if position != |payload| then Reject(BAD_LENGTH) else Ok(());
    }
  }

  /** What a successful read leaves of a parse. */
  ghost function Continued<T>(r: Checked<T>, fields: T -> seq<Field>, more: seq<Kind>, rest: seq<byte>): Checked<seq<Field>> {
    match r
    case Err(fault) => Err(fault)
    case Ok(v) => Prepend(fields(v), Parse(more, rest))
  }

  lemma HeadSchema(more: seq<Kind>)
    ensures PREAMBLE + more == [KU32] + ([KU32, KU32, KProfile, KZero(1)] + more)
    ensures [KU32, KU32, KProfile, KZero(1)] + more == [KU32] + ([KU32, KProfile, KZero(1)] + more)
    ensures [KU32, KProfile, KZero(1)] + more == [KU32] + ([KProfile, KZero(1)] + more)
    ensures [KProfile, KZero(1)] + more == [KProfile] + ([KZero(1)] + more)
  {
  }

  lemma PrependTwice(a: seq<Field>, b: seq<Field>, r: Checked<seq<Field>>)
    ensures Prepend(a, Prepend(b, r)) == Prepend(a + b, r)
  {
    if r.Ok? {
      assert a + (b + r.value) == a + b + r.value;
    }
  }

  lemma PrependToNothing(a: seq<Field>)
    ensures Prepend(a, Ok([])) == Ok(a)
  {
    assert a + [] == a;
  }

  lemma PrependThree(a: Field, b: Field, c: Field, r: Checked<seq<Field>>)
    ensures Prepend([a], Prepend([b], Prepend([c], r))) == Prepend([a, b, c], r)
  {
    PrependTwice([b], [c], r);
    PrependTwice([a], [b] + [c], r);
    assert [a] + ([b] + [c]) == [a, b, c];
  }

  lemma PrependFive(a: Field, b: Field, c: Field, d: Field, e: Field, r: Checked<seq<Field>>)
    ensures Prepend([a], Prepend([b], Prepend([c], Prepend([d], Prepend([e], r))))) == Prepend([a, b, c, d, e], r)
  {
    PrependThree(c, d, e, r);
    PrependThree(a, b, c, Prepend([d], Prepend([e], r)));
    PrependTwice([d], [e], r);
    PrependTwice([a, b, c], [d] + [e], r);
    assert [a, b, c] + ([d] + [e]) == [a, b, c, d, e];
  }

  lemma ThreeSchema(k: Kind, more: seq<Kind>)
    ensures [k, k, k] + more == [k] + ([k, k] + more) && [k, k] + more == [k] + ([k] + more)
  {
  }

  // ----- the codec of the three instructions -----

  /** What follows the head of an instruction. */
  function Tail(op: Opcode): seq<Kind>
    requires InSubset(op) && op != RETIRE
  {
    if op == SET_CONSTANT then [KU32, KF128, KCell]
    else THREE_WORDS + (THREE_CELLS + if op == MUL_NATIVE then [KCell] else [])
  }

  lemma SchemaIsTail(op: Opcode)
    requires InSubset(op) && op != RETIRE
    ensures Schema(op) == PREAMBLE + Tail(op)
  {
  }

  /** The rest of the payload reads as the rest of the request. */
  ghost predicate ReadsTail(op: Opcode, head: Preamble, r: Checked<Request>, rest: seq<byte>)
    requires InSubset(op) && op != RETIRE
  {
    match r
    case Err(fault) => Parse(Tail(op), rest) == Err(fault)
    case Ok(request) =>
      && request.Op() == op && request.Valid() && Fields(request)[..5] == HeadFields(head)
      && Parse(Tail(op), rest) == Ok(Fields(request)[5..])
  }

  lemma SplitFields(head: Preamble, fields: seq<Field>)
    ensures (HeadFields(head) + fields)[..5] == HeadFields(head) && (HeadFields(head) + fields)[5..] == fields
  {
  }

  method DecodeSet(head: Preamble, reader: PacketReader) returns (r: Checked<Request>)
    requires reader.Valid()
    modifies reader
    ensures ReadsTail(SET_CONSTANT, head, r, old(reader.Rest()))
  {
    hide Parse;
    assert [KU32, KF128, KCell] == [KU32] + [KF128, KCell] && [KF128, KCell] == [KF128] + [KCell] && [KCell] == [KCell] + [];
    var offset :- reader.U32([KF128, KCell]);
    var constant :- reader.Element([KCell]);
    var cell :- reader.ReadCell([]);
    var _ :- reader.Finish();
    r := Ok(Request.SetConstant(head, offset, constant, cell));
    PrependThree(FU32(offset), FF128(constant), FCell(cell), Ok([]));
    PrependToNothing([FU32(offset), FF128(constant), FCell(cell)]);
    SplitFields(head, [FU32(offset), FF128(constant), FCell(cell)]);
  }

  method DecodeBinary(op: Opcode, head: Preamble, reader: PacketReader) returns (r: Checked<Request>)
    requires (op == XOR || op == MUL_NATIVE) && reader.Valid()
    modifies reader
    ensures ReadsTail(op, head, r, old(reader.Rest()))
  {
    hide Parse;
    var inverse := ABSENT;
    ghost var last: seq<Kind> := if op == MUL_NATIVE then [KCell] else [];
    ghost var lastFields: seq<Field> := [];
    var offsets :- reader.ThreeWords(THREE_CELLS + last);
    var cells :- reader.ThreeCells(last);
    if op == MUL_NATIVE {
      assert [KCell] == [KCell] + [];
      inverse :- reader.ReadCell([]);
      lastFields := [FCell(inverse)];
    }
    var _ :- reader.Finish();
    r := Ok(if op == XOR then Request.Xor(head, offsets, cells) else Request.Mul(head, offsets, cells, inverse));
    BinaryTail(op, head, offsets, cells, inverse, lastFields);
  }

  lemma BinaryTail(op: Opcode, head: Preamble, offsets: seq<u32>, cells: seq<Cell>, inverse: Cell, last: seq<Field>)
    requires (op == XOR && last == []) || (op == MUL_NATIVE && last == [FCell(inverse)])
    ensures var r := if op == XOR then Request.Xor(head, offsets, cells) else Request.Mul(head, offsets, cells, inverse);
            var tail := WordFields(offsets) + (CellFields(cells) + last);
            && Fields(r)[..5] == HeadFields(head) && Fields(r)[5..] == tail
            && Prepend(WordFields(offsets), Prepend(CellFields(cells), Ok(last))) == Ok(tail)
            && Prepend(last, Ok([])) == Ok(last)
  {
    PrependToNothing(last);
    PrependTwice(WordFields(offsets), CellFields(cells), Ok(last));
    var r := if op == XOR then Request.Xor(head, offsets, cells) else Request.Mul(head, offsets, cells, inverse);
    assert Fields(r) == HeadFields(head) + (WordFields(offsets) + (CellFields(cells) + last));
    SplitFields(head, WordFields(offsets) + (CellFields(cells) + last));
  }

  /** The request an instruction payload carries; a fault is the first one in reading order. */
  method DecodeInstruction(op: Opcode, payload: seq<byte>) returns (r: Checked<Request>)
    requires InSubset(op) && op != RETIRE
    ensures r == DecodePayload(op, payload)
  {
    hide Parse, Matches;
    SchemaIsTail(op);
    FlattenParse(Schema(op), payload);
    var reader := new PacketReader(payload);
    var head :- reader.ReadHead(Tail(op));
    ghost var rest := reader.Rest();
    if op == SET_CONSTANT {
      r := DecodeSet(head, reader);
    } else {
      r := DecodeBinary(op, head, reader);
    }
    if r.Ok? {
      FieldsMatch(r.value);
      assert HeadFields(head) + Fields(r.value)[5..] == Fields(r.value);
    }
  }

  lemma RetireTail(txnId: u32, crc: u32)
    ensures var r := Request.Retire(txnId, crc);
            && Prepend([FU32(txnId)], Prepend([FU32(crc)], Ok([]))) == Ok(Fields(r))
            && Matches(Schema(RETIRE), Fields(r)) && FromFields(RETIRE, Fields(r)) == r
  {
    PrependTwice([FU32(txnId)], [FU32(crc)], Ok([]));
    PrependToNothing([FU32(txnId)] + [FU32(crc)]);
    assert [FU32(txnId)] + [FU32(crc)] == Fields(Request.Retire(txnId, crc));
    FieldsMatch(Request.Retire(txnId, crc));
  }

  lemma RetireSchema()
    ensures Schema(RETIRE) == [KU32] + [KU32] && [KU32] == [KU32] + []
  {
  }

  method DecodeRetire(payload: seq<byte>) returns (r: Checked<Request>)
    ensures r == DecodePayload(RETIRE, payload)
  {
    hide Parse, Matches, Schema, Fields, FromFields;
    RetireSchema();
    FlattenParse(Schema(RETIRE), payload);
    var reader := new PacketReader(payload);
    var txnId :- reader.U32([KU32]);
    var crc :- reader.U32([]);
    RetireTail(txnId, crc);
    var _ :- reader.Finish();
    return Ok(Request.Retire(txnId, crc));
  }
}
