/** How the packet executor executes `XOR`, `MUL_NATIVE` and `SET_CONSTANT`: its own frame memory,
    the schoolbook multiplier, and its own result payload. */
module PacketExecution {
  import opened Outcomes
  import opened Bytes
  import opened Ghash
  import opened Protocol
  import opened Wire
  import opened Requests
  import opened Results
  import opened Transitions

  // ----- the frame memory -----

  class FrameMemory {
    var cells: map<u32, Cell>
    var writes: seq<Write>

    ghost function View(): FrameView
      reads this
    {
      FrameView(cells, writes)
    }

    constructor ()
      ensures View() == EMPTY_FRAME
    {
      cells, writes := map[], [];
    }

    method Supply(address: u32, cell: Cell) returns (r: Checked<()>)
      modifies this
      ensures match old(View()).Supply(address, cell)
              case Ok(view) => r == Ok(()) && View() == view
              case Err(fault) => r == Err(fault)
    {
      if address in cells && cells[address] != cell {
        return Reject(ALIAS_INCONSISTENT);
      }
      cells := cells[address := cell];
      return Ok(());
    }

    predicate Present(address: u32)
      requires address in cells
      reads this
    {
      cells[address].present
    }

    function Read(address: u32): F128
      requires address in cells
      reads this
    {
      if cells[address].present then cells[address].value else 0
    }

    method WriteOnce(address: u32, value: F128) returns (r: Checked<()>)
      requires address in cells
      modifies this
      ensures match old(View()).WriteOnce(address, value)
              case Ok(view) => r == Ok(()) && View() == view
              case Err(fault) => r == Err(fault)
    {
      if Present(address) {
        return if cells[address].value != value then Reject(WRITE_CONFLICT) else Ok(());
      }
      cells := cells[address := Cell(true, value)];
      writes := writes + [Write(address, value)];
      return Ok(());
    }
  }

  // ----- executing -----

  type Executed = Checked<(seq<Write>, seq<u32>)>

  function WritesOf(f: Checked<FrameView>, accesses: seq<u32>): Executed {
    match f
    case Ok(view) => Ok((view.writes, accesses))
    case Err(fault) => Err(fault)
  }

  method ExecuteSetConstant(fp: u32, offset: u32, constant: F128, cell: Cell) returns (r: Executed)
    ensures r == match CheckedAdd(fp, offset)
                 case Err(fault) => Err(fault)
                 case Ok(address) =>
                   WritesOf((match EMPTY_FRAME.Supply(address, cell)
                             case Ok(f) => f.WriteOnce(address, constant)
                             case Err(fault) => Err(fault)),
                            [address])
  {
    var memory := new FrameMemory();
    var address :- CheckedAdd(fp, offset);
    var first := memory.Supply(address, cell);
    assert first == Ok(());
    var _ :- memory.WriteOnce(address, constant);
    return Ok((memory.writes, [address]));
  }

  method ExecuteRelation(op: Operation, profile: Profile, fp: u32, offsets: seq<u32>, cells: seq<Cell>, inverse: Cell)
    returns (r: Executed)
    requires |offsets| == 3 && |cells| == 3
    ensures r == match Addresses(fp, offsets)
                 case Err(fault) => Err(fault)
                 case Ok(addresses) => WritesOf(BinaryFrame(op, profile, addresses, cells, inverse), addresses)
  {
    hide Add, FieldMul;
    var a :- CheckedAdd(fp, offsets[0]);
    var b :- CheckedAdd(fp, offsets[1]);
    var c :- CheckedAdd(fp, offsets[2]);
    var memory := new FrameMemory();
    var first := memory.Supply(a, cells[0]);
    assert first == Ok(());
    var _ :- memory.Supply(b, cells[1]);
    var _ :- memory.Supply(c, cells[2]);
    var _ :- SolveOperand(op, profile, memory, a, b, c, inverse);
    var result: F128;
    if op.OpXor? {
      result := Add(memory.Read(a), memory.Read(b));
    } else {
      result := SchoolbookProduct(memory.Read(a), memory.Read(b));
    }
    var _ :- memory.WriteOnce(c, result);
    return Ok((memory.writes, [a, b, c]));
  }

  /** The back-solve in the middle of an instruction. */
  method SolveOperand(op: Operation, profile: Profile, memory: FrameMemory, a: u32, b: u32, c: u32, inverse: Cell)
    returns (r: Checked<()>)
    requires a in memory.cells && b in memory.cells && c in memory.cells
    modifies memory
    ensures match BackSolve(op, profile, old(memory.View()), a, b, c, inverse)
            case Ok(view) => r == Ok(()) && memory.View() == view
            case Err(fault) => r == Err(fault)
  {
    hide Add, FieldMul;
    var absentA, absentB := !memory.Present(a), !memory.Present(b);
    if (absentA || absentB) && profile == FORWARD_ONLY {
      return Reject(UNSUPPORTED_IN_PROFILE);
    }
    if memory.Present(c) && absentA != absentB {
      var knownAddress, missingAddress := if absentA then b else a, if absentA then a else b;
      var known, solved: F128 := memory.Read(knownAddress), 0;
      if op.OpXor? {
        solved := Add(memory.Read(c), known);
      } else {
        if known == 0 {
          return Reject(MUL_BACKSOLVE_ZERO);
        }
        var unit := SchoolbookProduct(known, inverse.value);
        if !inverse.present || unit != 1 {
          return Err(Fault(BAD_INVERSE, if !inverse.present then 1 else 2));
        }
        solved := SchoolbookProduct(memory.Read(c), inverse.value);
      }
      r := memory.WriteOnce(missingAddress, solved);
      return;
    }
    return Ok(());
  }

  /** `_execute` as the endpoint decides it, without the program counter. */
  method ExecuteRequest(r: Request) returns (x: Executed)
    requires r.Valid() && (r.Xor? || r.Mul? || r.SetConstant?) && r.head.pc < INDEX_LIMIT
    ensures match Decide(r)
            case Err(fault) => x == Err(fault)
            case Ok(d) => x == Ok((d.writes, d.accesses)) && d.deferred == [] && d.nextPc == r.head.pc + 1 && d.nextFp == r.head.fp
  {
    hide BinaryFrame;
    match r {
      case SetConstant(h, offset, constant, cell) => x := ExecuteSetConstant(h.fp, offset, constant, cell);
      case Xor(h, offsets, cells) => x := ExecuteRelation(OpXor, h.profile, h.fp, offsets, cells, ABSENT);
      case Mul(h, offsets, cells, inverse) => x := ExecuteRelation(OpMul, h.profile, h.fp, offsets, cells, inverse);
    }
  }

  /** `_result_payload`. */
  method BuildResult(txnId: u32, nextPc: u32, nextFp: u32, writes: seq<Write>, accesses: seq<u32>) returns (payload: seq<byte>)
    requires |writes| < 256 && |accesses| < 256
    ensures payload == EncodeTransition(Transition(txnId, nextPc, nextFp, writes, [], accesses))
  {
    var header := U32Bytes(txnId) + U32Bytes(nextPc) + U32Bytes(nextFp);
    var writeBytes := WriteRecords(writes);
    var accessBytes := AccessRecords(accesses);
    payload := header + ([|writes|] + writeBytes) + [0] + ([|accesses|] + accessBytes);
    Grouped(U32Bytes(txnId), U32Bytes(nextPc), U32Bytes(nextFp), [|writes|] + writeBytes, [0], [|accesses|] + accessBytes);
    assert EncodeList(DeferredCodec(), []) == [0];
  }

  lemma Grouped(a: seq<byte>, b: seq<byte>, c: seq<byte>, d: seq<byte>, e: seq<byte>, f: seq<byte>)
    ensures (a + b + c) + d + e + f == a + (b + (c + (d + (e + (f + [])))))
  {
  }

  method WriteRecords(writes: seq<Write>) returns (r: seq<byte>)
    ensures r == Concat(WriteCodec(), writes)
  {
    r := [];
    for i := 0 to |writes|
      invariant Concat(WriteCodec(), writes) == r + Concat(WriteCodec(), writes[i..])
    {
      assert writes[i..][0] == writes[i] && writes[i..][1..] == writes[i + 1..];
      r := r + (U32Bytes(writes[i].address) + F128Bytes(writes[i].value));
    }
  }

  method AccessRecords(accesses: seq<u32>) returns (r: seq<byte>)
    ensures r == Concat(AccessCodec(), accesses)
  {
    r := [];
    for i := 0 to |accesses|
      invariant Concat(AccessCodec(), accesses) == r + Concat(AccessCodec(), accesses[i..])
    {
      assert accesses[i..][0] == accesses[i] && accesses[i..][1..] == accesses[i + 1..];
      r := r + U32Bytes(accesses[i]);
    }
  }
}
