/** The wire form of LSC-1 payloads and frames. A request payload is a fixed sequence
    of primitive fields per opcode; one schema drives both the builders and the
    bounds-checked reader, and the two are proved inverse on everything the
    reader accepts. */
module Wire {
  import opened Outcomes
  import opened Bytes
  import opened Ghash
  import opened Protocol

  // ----- primitive fields -----

  /** What the reader expects next. `Zero(detail)` is a reserved byte. */
  datatype Kind = KByte | KU32 | KF128 | KCell | KProfile | KZero(detail: byte) | KTaken

  datatype Field =
    | FByte(b: byte)
    | FU32(word: u32)
    | FF128(element: F128)
    | FCell(cell: Cell)
    | FProfile(profile: Profile)
    | FZero
    | FTaken(taken: bool)

  function Width(k: Kind): nat {
    match k
    case KU32 => 4
    case KF128 => 16
    case KCell => 17
    case _ => 1
  }

  predicate Fits(k: Kind, f: Field) {
    match k
    case KByte => f.FByte?
    case KU32 => f.FU32?
    case KF128 => f.FF128?
    case KCell => f.FCell? && f.cell.Canonical()
    case KProfile => f.FProfile?
    case KZero(_) => f.FZero?
    case KTaken => f.FTaken?
  }

  function U32Bytes(v: u32): (r: seq<byte>)
    ensures |r| == 4
  {
    LittleEndian(4, v)
  }

  function U32Of(data: seq<byte>): (v: u32)
    requires |data| == 4
  {
    ToFromLittleEndian(data);
    Pow2At32();
    FromLittleEndian(data)
  }

  function F128Bytes(v: F128): (r: seq<byte>)
    ensures |r| == 16
  {
    LittleEndian(16, v)
  }

  function F128Of(data: seq<byte>): (v: F128)
    requires |data| == 16
  {
    ToFromLittleEndian(data);
    Pow2At128();
    FromLittleEndian(data)
  }

  lemma U32RoundTrip(v: u32, data: seq<byte>)
    ensures U32Of(U32Bytes(v)) == v
    ensures |data| == 4 ==> U32Bytes(U32Of(data)) == data
  {
    Pow2At32();
    FromToLittleEndian(4, v);
    ToFromLittleEndian(data);
  }

  lemma F128RoundTrip(v: F128, data: seq<byte>)
    ensures F128Of(F128Bytes(v)) == v
    ensures |data| == 16 ==> F128Bytes(F128Of(data)) == data
  {
    Pow2At128();
    FromToLittleEndian(16, v);
    ToFromLittleEndian(data);
  }

  function EncodeField(f: Field): seq<byte> {
    match f
    case FByte(b) => [b]
    case FU32(v) => U32Bytes(v)
    case FF128(v) => F128Bytes(v)
    case FCell(c) => [if c.present then 1 else 0] + F128Bytes(c.value)
    case FProfile(p) => [p.Code()]
    case FZero => [0]
    case FTaken(t) => [if t then 1 else 0]
  }

  /** Reading one field off exactly the bytes it occupies. */
  function DecodeField(k: Kind, data: seq<byte>): Checked<Field>
    requires |data| == Width(k)
  {
    match k
    case KByte => Ok(FByte(data[0]))
    case KU32 => Ok(FU32(U32Of(data)))
    case KF128 => Ok(FF128(F128Of(data)))
    case KCell =>
      var value := F128Of(data[1..]);
      if data[0] > 1 || (data[0] == 0 && value != 0) then Reject(BAD_CELL)
      else Ok(FCell(Cell(data[0] == 1, value)))
    case KProfile =>
      if data[0] == 0 then Ok(FProfile(FORWARD_ONLY))
      else if data[0] == 1 then Ok(FProfile(INTERPRETER_COMPAT))
      else Reject(BAD_PROFILE)
    case KZero(detail) => if data[0] == 0 then Ok(FZero) else Err(Fault(BAD_FLAGS, detail))
    case KTaken => if data[0] > 1 then Err(Fault(BAD_BRANCH_PROPOSAL, 3)) else Ok(FTaken(data[0] == 1))
  }

  lemma FieldEncodeDecode(k: Kind, f: Field)
    requires Fits(k, f)
    ensures |EncodeField(f)| == Width(k)
    ensures DecodeField(k, EncodeField(f)) == Ok(f)
  {
    match f
    case FU32(v) => U32RoundTrip(v, []);
    case FF128(v) => F128RoundTrip(v, []);
    case FCell(c) =>
      F128RoundTrip(c.value, []);
      assert EncodeField(f)[1..] == F128Bytes(c.value);
    case _ =>
  }

  lemma FieldDecodeEncode(k: Kind, data: seq<byte>)
    requires |data| == Width(k)
    ensures match DecodeField(k, data)
            case Ok(f) => Fits(k, f) && EncodeField(f) == data
            case Err(fault) => fault.status != BAD_LENGTH
  {
    match k
    case KU32 => U32RoundTrip(0, data);
    case KF128 => F128RoundTrip(0, data);
    case KCell =>
      F128RoundTrip(0, data[1..]);
      assert data == [data[0]] + data[1..];
    case _ =>
  }

  // ----- schemas -----

  function SchemaBytes(schema: seq<Kind>): nat {
    if schema == [] then 0 else Width(schema[0]) + SchemaBytes(schema[1..])
  }

  predicate Matches(schema: seq<Kind>, fields: seq<Field>) {
    |schema| == |fields| && forall i :: 0 <= i < |schema| ==> Fits(schema[i], fields[i])
  }

  function Flatten(fields: seq<Field>): seq<byte> {
    if fields == [] then [] else EncodeField(fields[0]) + Flatten(fields[1..])
  }

  /** Reading a whole payload: every field in order, then nothing may be left. */
  function Parse(schema: seq<Kind>, data: seq<byte>): Checked<seq<Field>> {
    if schema == [] then
      if data == [] then Ok([]) else Reject(BAD_LENGTH)
    else
      var w := Width(schema[0]);
      if |data| < w then Reject(BAD_LENGTH) else
      var head :- DecodeField(schema[0], data[..w]);
      var rest :- Parse(schema[1..], data[w..]);
      Ok([head] + rest)
  }

  lemma {:induction false} ParseFlatten(schema: seq<Kind>, fields: seq<Field>)
    requires Matches(schema, fields)
    ensures |Flatten(fields)| == SchemaBytes(schema)
    ensures Parse(schema, Flatten(fields)) == Ok(fields)
  {
    if schema != [] {
      ParseFlatten(schema[1..], fields[1..]);
      FieldEncodeDecode(schema[0], fields[0]);
      var data, w := Flatten(fields), Width(schema[0]);
      assert data[..w] == EncodeField(fields[0]) && data[w..] == Flatten(fields[1..]);
      assert fields == [fields[0]] + fields[1..];
    }
  }

  lemma {:induction false} FlattenParse(schema: seq<Kind>, data: seq<byte>)
    ensures match Parse(schema, data)
            case Ok(fields) => Matches(schema, fields) && Flatten(fields) == data
            case Err(fault) => |data| == SchemaBytes(schema) ==> fault.status != BAD_LENGTH
  {
    hide DecodeField, EncodeField, Fits;
    if schema != [] && |data| >= Width(schema[0]) {
      var w := Width(schema[0]);
      FieldDecodeEncode(schema[0], data[..w]);
      FlattenParse(schema[1..], data[w..]);
      assert data == data[..w] + data[w..];
      match Parse(schema, data)
      case Ok(fields) =>
        assert fields[1..] == Parse(schema[1..], data[w..]).value;
      case Err(_) =>
    }
  }

  /** `_Reader`: a payload and the offset of the next unread byte. */
  class Reader {
    const data: seq<byte>
    var offset: nat

    constructor (data: seq<byte>)
      ensures this.data == data && offset == 0
    {
      this.data := data;
      offset := 0;
    }

    method Take(count: nat) returns (r: Checked<seq<byte>>)
      requires offset <= |data|
      modifies this
      ensures old(offset) + count > |data| ==> r == Reject(BAD_LENGTH) && offset == old(offset)
      ensures old(offset) + count <= |data| ==>
        r == Ok(data[old(offset)..old(offset) + count]) && offset == old(offset) + count
    {
      var end := offset + count;
      if end > |data| {
        return Reject(BAD_LENGTH);
      }
      r := Ok(data[offset..end]);
      offset := end;
    }

    method ReadField(k: Kind) returns (r: Checked<Field>)
      requires offset <= |data|
      modifies this
      ensures offset <= |data|
      ensures old(offset) + Width(k) > |data| ==> r == Reject(BAD_LENGTH)
      ensures old(offset) + Width(k) <= |data| ==>
        offset == old(offset) + Width(k) && r == DecodeField(k, data[old(offset)..offset])
    {
      var chunk := Take(Width(k));
      match chunk {
        case Ok(bytes) => r := DecodeField(k, bytes);
        case Err(fault) => r := Err(fault);
      }
    }

    /** Reads every field of a schema, then checks that the payload is used up. */
    method ReadAll(schema: seq<Kind>) returns (r: Checked<seq<Field>>)
      requires offset == 0
      modifies this
      ensures r == Parse(schema, data)
    {
      var fields: seq<Field> := [];
      var i := 0;
      assert data[0..] == data && schema[0..] == schema;
      PrependNothing(Parse(schema, data));
      while i < |schema|
        invariant 0 <= i <= |schema| && offset <= |data|
        invariant Parse(schema, data) == Prepend(fields, Parse(schema[i..], data[offset..]))
      {
        ghost var start := offset;
        ghost var rest := data[start..];
        assert schema[i..][0] == schema[i] && schema[i..][1..] == schema[i + 1..];
        var field := ReadField(schema[i]);
        if field.Err? {
          assert start + Width(schema[i]) <= |data| ==> rest[..Width(schema[i])] == data[start..offset];
          return Err(field.error);
        }
        assert rest[..Width(schema[i])] == data[start..offset] && rest[Width(schema[i])..] == data[offset..];
        PrependStep(fields, field.value, Parse(schema[i + 1..], data[offset..]));
        fields := fields + [field.value];
        i := i + 1;
      }
      assert fields + [] == fields;
      if offset != |data| {
        return Reject(BAD_LENGTH);
      }
      return Ok(fields);
    }
  }

  function Prepend(fields: seq<Field>, r: Checked<seq<Field>>): Checked<seq<Field>> {
    match r
    case Ok(rest) => Ok(fields + rest)
    case Err(fault) => Err(fault)
  }

  lemma PrependNothing(r: Checked<seq<Field>>)
    ensures Prepend([], r) == r
  {
    if r.Ok? {
      assert [] + r.value == r.value;
    }
  }

  lemma PrependStep(fields: seq<Field>, head: Field, r: Checked<seq<Field>>)
    ensures Prepend(fields, Prepend([head], r)) == Prepend(fields + [head], r)
  {
    if r.Ok? {
      assert fields + ([head] + r.value) == fields + [head] + r.value;
    }
  }
}
