/** The scalar transition one request decides: the private view of the supplied
    cells, and the execution of every instruction over it. */
module Transitions {
  import opened Outcomes
  import opened Bits
  import opened Bytes
  import opened Ghash
  import opened Protocol
  import opened Requests

  // ----- the transition's view of the cells -----

  /** The value of a `Frame` object: the supplied cells, and the writes in order. */
  datatype FrameView = FrameView(cells: map<u32, Cell>, writes: seq<Write>) {
    predicate Present(address: u32)
      requires address in cells
    {
      cells[address].present
    }

    /** An absent cell reads as zero. */
    function Read(address: u32): F128
      requires address in cells
    {
      if cells[address].present then cells[address].value else 0
    }

    function Supply(address: u32, cell: Cell): (r: Checked<FrameView>)
      ensures r.Ok? ==> r.value == FrameView(cells[address := cell], writes)
    {
      if address in cells && cells[address] != cell then Reject(ALIAS_INCONSISTENT)
      else Ok(FrameView(cells[address := cell], writes))
    }

    function WriteOnce(address: u32, value: F128): (r: Checked<FrameView>)
      requires address in cells
      ensures r.Ok? ==> r.value.cells.Keys == cells.Keys && |r.value.writes| <= |writes| + 1
    {
      if cells[address].present then
        if cells[address].value != value then Reject(WRITE_CONFLICT) else Ok(this)
      else Ok(FrameView(cells[address := Cell(true, value)], writes + [Write(address, value)]))
    }
  }

  const EMPTY_FRAME: FrameView := FrameView(map[], [])

  class Frame {
    var cells: map<u32, Cell>
    var writes: seq<Write>

    ghost function View(): FrameView
      reads this
    {
      FrameView(cells, writes)
    }

    constructor ()
      ensures View() == EMPTY_FRAME
    {
      cells := map[];
      writes := [];
    }

    method Supply(address: u32, cell: Cell) returns (r: Checked<()>)
      modifies this
      ensures match old(View()).Supply(address, cell)
              case Ok(view) => r == Ok(()) && View() == view
              case Err(fault) => r == Err(fault) && View() == old(View())
    {
      if address in cells {
        var existing := cells[address];
        if existing != cell {
          return Reject(ALIAS_INCONSISTENT);
        }
      }
      cells := cells[address := cell];
      return Ok(());
    }

    method WriteOnce(address: u32, value: F128) returns (r: Checked<()>)
      requires address in cells
      modifies this
      ensures match old(View()).WriteOnce(address, value)
              case Ok(view) => r == Ok(()) && View() == view
              case Err(fault) => r == Err(fault) && View() == old(View())
    {
      var cell := cells[address];
      if cell.present {
        return if cell.value != value then Reject(WRITE_CONFLICT) else Ok(());
      }
      cells := cells[address := Cell(true, value)];
      writes := writes + [Write(address, value)];
      return Ok(());
    }
  }

  // ----- decisions -----

  /** What a transition decides, before anything is committed. */
  datatype Decision = Decision(
    nextPc: u32,
    nextFp: u32,
    writes: seq<Write>,
    deferred: seq<DeferredEquality>,
    accesses: seq<u32>
  ) {
    /** The three counts fit the result payload's count bytes. */
    predicate Small() {
      |writes| <= 2 && |deferred| <= 1 && |accesses| <= 8
    }
  }

  /** `_verify_index`. */
  function VerifyIndex(base: u32, pointer: F128): Checked<()> {
    if base >= INDEX_LIMIT then Reject(INDEX_RANGE)
    else if GPower(base) != pointer then Reject(BAD_POINTER)
    else Ok(())
  }

  /** `field_encode` with the endpoint's index window. */
  function EncodeIndex(index: u32): Checked<F128> {
    if index >= INDEX_LIMIT then Reject(INDEX_RANGE) else Ok(GPower(index))
  }

  method EncodeIndexSquaring(index: u32) returns (r: Checked<F128>)
    ensures r == EncodeIndex(index)
  {
    Pow2At128();
    var encoded := FieldEncode(INDEX_BITS, index);
    r := match encoded case Some(v) => Ok(v) case None => Reject(INDEX_RANGE);
  }

  method CheckIndex(base: u32, pointer: F128) returns (r: Checked<()>)
    ensures r == VerifyIndex(base, pointer)
  {
    if base >= INDEX_LIMIT {
      return Reject(INDEX_RANGE);
    }
    var encoded := EncodeIndexSquaring(base);
    if encoded != Ok(pointer) {
      return Reject(BAD_POINTER);
    }
    return Ok(());
  }

  /** Three operands, resolved against the frame pointer. */
  function Addresses(fp: u32, offsets: seq<u32>): (r: Checked<seq<u32>>)
    requires |offsets| == 3
    ensures r.Ok? ==> r.value == [fp + offsets[0], fp + offsets[1], fp + offsets[2]]
    ensures r.Err? ==> r == Reject(U32_OVERFLOW)
  {
    var a :- CheckedAdd(fp, offsets[0]);
    var b :- CheckedAdd(fp, offsets[1]);
    var c :- CheckedAdd(fp, offsets[2]);
    Ok([a, b, c])
  }

  function SupplyThree(addresses: seq<u32>, cells: seq<Cell>): (r: Checked<FrameView>)
    requires |addresses| == 3 && |cells| == 3
    ensures r.Ok? ==> r.value.cells.Keys == {addresses[0], addresses[1], addresses[2]} && r.value.writes == []
  {
    var f0 :- EMPTY_FRAME.Supply(addresses[0], cells[0]);
    var f1 :- f0.Supply(addresses[1], cells[1]);
    f1.Supply(addresses[2], cells[2])
  }

  // ----- XOR and MUL -----

  datatype Operation = OpXor | OpMul {
    function Apply(left: F128, right: F128): F128 {
      if OpXor? then Add(left, right) else FieldMul(left, right)
    }
  }

  /** The operand solved from the destination and the known operand. */
  function Solve(op: Operation, product: F128, known: F128, inverse: Cell): Checked<F128> {
    if op.OpXor? then Ok(Add(product, known))
    else if known == 0 then Reject(MUL_BACKSOLVE_ZERO)
    else if !inverse.present then Err(Fault(BAD_INVERSE, 1))
    else if FieldMul(known, inverse.value) != 1 then Err(Fault(BAD_INVERSE, 2))
    else Ok(FieldMul(product, inverse.value))
  }

  /** Fills the one absent operand of a relation whose destination is written. */
  function BackSolve(op: Operation, profile: Profile, f: FrameView, a: u32, b: u32, c: u32, inverse: Cell): (r: Checked<FrameView>)
    requires a in f.cells && b in f.cells && c in f.cells
    ensures r.Ok? ==> r.value.cells.Keys == f.cells.Keys && |r.value.writes| <= |f.writes| + 1
  {
    if profile == FORWARD_ONLY then
      if !f.Present(a) || !f.Present(b) then Reject(UNSUPPORTED_IN_PROFILE) else Ok(f)
    else if f.Present(c) && f.Present(a) != f.Present(b) then
      var known, missing := if f.Present(a) then a else b, if f.Present(a) then b else a;
      var solved :- Solve(op, f.Read(c), f.Read(known), inverse);
      f.WriteOnce(missing, solved)
    else Ok(f)
  }

  function BinaryFrame(op: Operation, profile: Profile, addresses: seq<u32>, cells: seq<Cell>, inverse: Cell): (r: Checked<FrameView>)
    requires |addresses| == 3 && |cells| == 3
    ensures r.Ok? ==> |r.value.writes| <= 2
  {
    var f :- SupplyThree(addresses, cells);
    var solved :- BackSolve(op, profile, f, addresses[0], addresses[1], addresses[2], inverse);
    solved.WriteOnce(addresses[2], op.Apply(solved.Read(addresses[0]), solved.Read(addresses[1])))
  }

  function DecideBinary(op: Operation, head: Preamble, offsets: seq<u32>, cells: seq<Cell>, inverse: Cell): Checked<Decision>
    requires |offsets| == 3 && |cells| == 3
  {
    var addresses :- Addresses(head.fp, offsets);
    var f :- BinaryFrame(op, head.profile, addresses, cells, inverse);
    var nextPc :- CheckedAdd(head.pc, 1);
    Ok(Decision(nextPc, head.fp, f.writes, [], addresses))
  }

  method ResolveThree(fp: u32, offsets: seq<u32>) returns (r: Checked<seq<u32>>)
    requires |offsets| == 3
    ensures r == Addresses(fp, offsets)
  {
    var addresses: seq<u32> := [];
    for i := 0 to 3
      invariant |addresses| == i
      invariant forall j :: 0 <= j < i ==> addresses[j] == fp + offsets[j]
    {
      var address :- CheckedAdd(fp, offsets[i]);
      addresses := addresses + [address];
    }
    assert addresses == [fp + offsets[0], fp + offsets[1], fp + offsets[2]];
    return Ok(addresses);
  }

  method SupplyAll(frame: Frame, addresses: seq<u32>, cells: seq<Cell>) returns (r: Checked<()>)
    requires |addresses| == 3 && |cells| == 3 && frame.View() == EMPTY_FRAME
    modifies frame
    ensures match SupplyThree(addresses, cells)
            case Ok(view) => r == Ok(()) && frame.View() == view
            case Err(fault) => r == Err(fault)
  {
    var _ :- frame.Supply(addresses[0], cells[0]);
    var _ :- frame.Supply(addresses[1], cells[1]);
    r := frame.Supply(addresses[2], cells[2]);
  }

  method Combine(op: Operation, left: F128, right: F128) returns (r: F128)
    ensures r == op.Apply(left, right)
  {
    if op.OpXor? {
      r := Add(left, right);
    } else {
      r := SerialProduct(left, right);
    }
  }

  method SolveMissing(op: Operation, product: F128, known: F128, inverse: Cell) returns (r: Checked<F128>)
    ensures r == Solve(op, product, known, inverse)
  {
    if op.OpXor? {
      return Ok(Add(product, known));
    }
    if known == 0 {
      return Reject(MUL_BACKSOLVE_ZERO);
    }
    if !inverse.present {
      return Err(Fault(BAD_INVERSE, 1));
    }
    var check := SerialProduct(known, inverse.value);
    if check != 1 {
      return Err(Fault(BAD_INVERSE, 2));
    }
    var solved := SerialProduct(product, inverse.value);
    return Ok(solved);
  }

  method BackSolveFrame(op: Operation, profile: Profile, frame: Frame, a: u32, b: u32, c: u32, inverse: Cell)
    returns (r: Checked<()>)
    requires a in frame.cells && b in frame.cells && c in frame.cells
    modifies frame
    ensures match BackSolve(op, profile, old(frame.View()), a, b, c, inverse)
            case Ok(view) => r == Ok(()) && frame.View() == view
            case Err(fault) => r == Err(fault)
  {
    var absentA, absentB := !frame.cells[a].present, !frame.cells[b].present;
    if profile == FORWARD_ONLY {
      return if absentA || absentB then Reject(UNSUPPORTED_IN_PROFILE) else Ok(());
    }
    if frame.cells[c].present && absentA != absentB {
      var known := if absentA then b else a;
      var missing := if absentA then a else b;
      var solved :- SolveMissing(op, frame.cells[c].value, frame.cells[known].value, inverse);
      r := frame.WriteOnce(missing, solved);
      return;
    }
    return Ok(());
  }

  /** `_execute_binary`. */
  method ExecuteBinary(op: Operation, head: Preamble, offsets: seq<u32>, cells: seq<Cell>, inverse: Cell)
    returns (r: Checked<Decision>)
    requires |offsets| == 3 && |cells| == 3
    ensures r == DecideBinary(op, head, offsets, cells, inverse)
  {
    var frame := new Frame();
    var addresses :- ResolveThree(head.fp, offsets);
    var a, b, c := addresses[0], addresses[1], addresses[2];
    var _ :- SupplyAll(frame, addresses, cells);
    var _ :- BackSolveFrame(op, head.profile, frame, a, b, c, inverse);
    var left := if frame.cells[a].present then frame.cells[a].value else 0;
    var right := if frame.cells[b].present then frame.cells[b].value else 0;
    var value := Combine(op, left, right);
    var _ :- frame.WriteOnce(c, value);
    var nextPc :- CheckedAdd(head.pc, 1);
    return Ok(Decision(nextPc, head.fp, frame.writes, [], addresses));
  }

  // ----- SET -----

  function DecideSet(head: Preamble, offset: u32, constant: F128, cell: Cell): Checked<Decision> {
    var address :- CheckedAdd(head.fp, offset);
    var f :- EMPTY_FRAME.Supply(address, cell);
    var done :- f.WriteOnce(address, constant);
    var nextPc :- CheckedAdd(head.pc, 1);
    Ok(Decision(nextPc, head.fp, done.writes, [], [address]))
  }

  /** `_execute_set`. */
  method ExecuteSet(head: Preamble, offset: u32, constant: F128, cell: Cell) returns (r: Checked<Decision>)
    ensures r == DecideSet(head, offset, constant, cell)
  {
    var frame := new Frame();
    var address :- CheckedAdd(head.fp, offset);
    var _ :- frame.Supply(address, cell);
    var _ :- frame.WriteOnce(address, constant);
    var nextPc :- CheckedAdd(head.pc, 1);
    return Ok(Decision(nextPc, head.fp, frame.writes, [], [address]));
  }

  // ----- DEREF -----

  /** `DEREF_CELL`: reconcile target and local, or hand the equality back to the host. */
  function Reconcile(profile: Profile, f: FrameView, target: u32, local: u32): (r: Checked<(FrameView, seq<DeferredEquality>)>)
    requires target in f.cells && local in f.cells
    ensures r.Ok? ==> |r.value.0.writes| <= |f.writes| + 1 && |r.value.1| <= 1
  {
    if profile == FORWARD_ONLY then
      if !f.Present(local) then Reject(UNSUPPORTED_IN_PROFILE)
      else if f.Present(target) && f.Read(target) != f.Read(local) then Reject(DEREF_MISMATCH)
      else Ok((f.WriteOnce(target, f.Read(local)).value, []))
    else if f.Present(target) && f.Present(local) then
      if f.Read(target) != f.Read(local) then Reject(DEREF_MISMATCH) else Ok((f, []))
    else if f.Present(target) then Ok((f.WriteOnce(local, f.Read(target)).value, []))
    else if f.Present(local) then Ok((f.WriteOnce(target, f.Read(local)).value, []))
    else Ok((f, [DeferredEquality(target, local)]))
  }

  function DecideDeref(mode: DerefMode, head: Preamble, alpha: u32, beta: u32, gamma: u32,
                       pointer: Cell, base: u32, target: Cell, local: Cell): Checked<Decision>
  {
    var pointerAddress :- CheckedAdd(head.fp, alpha);
    var localAddress :- CheckedAdd(head.fp, gamma);
    var f0 :- EMPTY_FRAME.Supply(pointerAddress, pointer);
    var _ :- VerifyIndex(base, f0.Read(pointerAddress));
    var targetAddress :- CheckedAdd(base, beta);
    var f1 :- f0.Supply(targetAddress, target);
    var f :- f1.Supply(localAddress, local);
    var (done, deferred) :- DerefEffect(mode, head, f, targetAddress, localAddress);
    var nextPc :- CheckedAdd(head.pc, 1);
    Ok(Decision(nextPc, head.fp, done.writes, deferred, [pointerAddress, targetAddress, localAddress]))
  }

  function DerefEffect(mode: DerefMode, head: Preamble, f: FrameView, target: u32, local: u32)
    : (r: Checked<(FrameView, seq<DeferredEquality>)>)
    requires target in f.cells && local in f.cells
    ensures r.Ok? ==> |r.value.0.writes| <= |f.writes| + 1 && |r.value.1| <= 1
  {
    match mode
    case ModeCell => Reconcile(head.profile, f, target, local)
    case ModePc =>
      var index :- CheckedAdd(head.pc, 2);
      var value :- EncodeIndex(index);
      var done :- f.WriteOnce(target, value);
      Ok((done, []))
    case ModeFp =>
      var value :- EncodeIndex(head.fp);
      var done :- f.WriteOnce(target, value);
      Ok((done, []))
  }

  method ReconcileFrame(profile: Profile, frame: Frame, target: u32, local: u32)
    returns (r: Checked<seq<DeferredEquality>>)
    requires target in frame.cells && local in frame.cells
    modifies frame
    ensures match Reconcile(profile, old(frame.View()), target, local)
            case Ok((view, deferred)) => r == Ok(deferred) && frame.View() == view
            case Err(fault) => r == Err(fault)
  {
    var t, l := frame.cells[target], frame.cells[local];
    if profile == FORWARD_ONLY {
      if !l.present {
        return Reject(UNSUPPORTED_IN_PROFILE);
      }
      if t.present && t.value != l.value {
        return Reject(DEREF_MISMATCH);
      }
      var _ := frame.WriteOnce(target, l.value);
    } else if t.present && l.present {
      if t.value != l.value {
        return Reject(DEREF_MISMATCH);
      }
    } else if t.present {
      var _ := frame.WriteOnce(local, t.value);
    } else if l.present {
      var _ := frame.WriteOnce(target, l.value);
    } else {
      return Ok([DeferredEquality(target, local)]);
    }
    return Ok([]);
  }

  /** `_execute_deref`. */
  method ExecuteDeref(mode: DerefMode, head: Preamble, alpha: u32, beta: u32, gamma: u32,
                      pointer: Cell, base: u32, target: Cell, local: Cell) returns (r: Checked<Decision>)
    ensures r == DecideDeref(mode, head, alpha, beta, gamma, pointer, base, target, local)
  {
    var frame := new Frame();
    var pointerAddress :- CheckedAdd(head.fp, alpha);
    var localAddress :- CheckedAdd(head.fp, gamma);
    var _ :- frame.Supply(pointerAddress, pointer);
    var _ :- CheckIndex(base, if pointer.present then pointer.value else 0);
    var targetAddress :- CheckedAdd(base, beta);
    var _ :- frame.Supply(targetAddress, target);
    var _ :- frame.Supply(localAddress, local);
    var deferred: seq<DeferredEquality> := [];
    match mode {
      case ModeCell =>
        deferred :- ReconcileFrame(head.profile, frame, targetAddress, localAddress);
      case ModePc =>
        var index :- CheckedAdd(head.pc, 2);
        var value :- EncodeIndexSquaring(index);
        var _ :- frame.WriteOnce(targetAddress, value);
      case ModeFp =>
        var value :- EncodeIndexSquaring(head.fp);
        var _ :- frame.WriteOnce(targetAddress, value);
    }
    var nextPc :- CheckedAdd(head.pc, 1);
    return Ok(Decision(nextPc, head.fp, frame.writes, deferred, [pointerAddress, targetAddress, localAddress]));
  }

  // ----- JUMP -----

  function DecideJump(head: Preamble, offsets: seq<u32>, cells: seq<Cell>,
                      taken: bool, destPc: u32, destFp: u32, inverse: Cell): Checked<Decision>
    requires |offsets| == 3 && |cells| == 3
  {
    var addresses :- Addresses(head.fp, offsets);
    var f :- SupplyThree(addresses, cells);
    var condition := f.Read(addresses[0]);
    if (condition != 0) != taken then Err(Fault(BAD_BRANCH_PROPOSAL, 1))
    else if taken then
      if !inverse.present || FieldMul(condition, inverse.value) != 1 then Reject(BAD_INVERSE) else
      var _ :- VerifyIndex(destPc, f.Read(addresses[1]));
      var _ :- VerifyIndex(destFp, f.Read(addresses[2]));
      Ok(Decision(destPc, destFp, f.writes, [], addresses))
    else if inverse.present && inverse.value != 0 then Err(Fault(BAD_INVERSE, 3))
    else if destPc != 0 || destFp != 0 then Err(Fault(BAD_BRANCH_PROPOSAL, 2))
    else
      var nextPc :- CheckedAdd(head.pc, 1);
      Ok(Decision(nextPc, head.fp, f.writes, [], addresses))
  }

  /** `_execute_jump`. */
  method ExecuteJump(head: Preamble, offsets: seq<u32>, cells: seq<Cell>,
                     taken: bool, destPc: u32, destFp: u32, inverse: Cell) returns (r: Checked<Decision>)
    requires |offsets| == 3 && |cells| == 3
    ensures r == DecideJump(head, offsets, cells, taken, destPc, destFp, inverse)
  {
    var frame := new Frame();
    var addresses :- ResolveThree(head.fp, offsets);
    var _ :- SupplyAll(frame, addresses, cells);
    var conditionCell := frame.cells[addresses[0]];
    var destinationCell := frame.cells[addresses[1]];
    var frameCell := frame.cells[addresses[2]];
    var condition := if conditionCell.present then conditionCell.value else 0;
    if (condition != 0) != taken {
      return Err(Fault(BAD_BRANCH_PROPOSAL, 1));
    }
    if taken {
      var product := SerialProduct(condition, inverse.value);
      if !inverse.present || product != 1 {
        return Reject(BAD_INVERSE);
      }
      var _ :- CheckIndex(destPc, if destinationCell.present then destinationCell.value else 0);
      var _ :- CheckIndex(destFp, if frameCell.present then frameCell.value else 0);
      return Ok(Decision(destPc, destFp, frame.writes, [], addresses));
    }
    if inverse.present && inverse.value != 0 {
      return Err(Fault(BAD_INVERSE, 3));
    }
    if destPc != 0 || destFp != 0 {
      return Err(Fault(BAD_BRANCH_PROPOSAL, 2));
    }
    var nextPc :- CheckedAdd(head.pc, 1);
    return Ok(Decision(nextPc, head.fp, frame.writes, [], addresses));
  }

  /** The scalar instructions, by request. */
  function Decide(r: Request): (d: Checked<Decision>)
    requires r.Valid() && (r.Xor? || r.Mul? || r.SetConstant? || r.Deref? || r.Jump?)
    ensures d.Ok? ==> d.value.Small()
  {
    match r
    case Xor(h, offsets, cells) => DecideBinary(OpXor, h, offsets, cells, ABSENT)
    case Mul(h, offsets, cells, inverse) => DecideBinary(OpMul, h, offsets, cells, inverse)
    case SetConstant(h, offset, constant, cell) => DecideSet(h, offset, constant, cell)
    case Deref(mode, h, alpha, beta, gamma, pointer, base, target, local) =>
      DecideDeref(mode, h, alpha, beta, gamma, pointer, base, target, local)
    case Jump(h, offsets, cells, taken, destPc, destFp, inverse) =>
      DecideJump(h, offsets, cells, taken, destPc, destFp, inverse)
  }

  method Execute(r: Request) returns (d: Checked<Decision>)
    requires r.Valid() && (r.Xor? || r.Mul? || r.SetConstant? || r.Deref? || r.Jump?)
    ensures d == Decide(r)
  {
    match r {
      case Xor(h, offsets, cells) => d := ExecuteBinary(OpXor, h, offsets, cells, ABSENT);
      case Mul(h, offsets, cells, inverse) => d := ExecuteBinary(OpMul, h, offsets, cells, inverse);
      case SetConstant(h, offset, constant, cell) => d := ExecuteSet(h, offset, constant, cell);
      case Deref(mode, h, alpha, beta, gamma, pointer, base, target, local) =>
        d := ExecuteDeref(mode, h, alpha, beta, gamma, pointer, base, target, local);
      case Jump(h, offsets, cells, taken, destPc, destFp, inverse) =>
        d := ExecuteJump(h, offsets, cells, taken, destPc, destFp, inverse);
    }
  }

  // ----- BLAKE3, the delegated instruction -----

  datatype ServiceRequest = ServiceRequest(serviceId: u32, message: seq<F128>, chaining: seq<F128>, metadata: F128)

  const BLAKE3_COMPRESS: byte := 1

  /** What suspends a BLAKE3 request: the operands it published and the frame the digest will enter. */
  datatype Suspension = Suspension(decision: Decision, service: ServiceRequest, frame: FrameView) {
    predicate Valid() {
      && |service.message| == 4 && |service.chaining| == 2 && MetadataSupported(service.metadata)
      && |decision.accesses| == 8 && decision.writes == [] && decision.deferred == []
      && decision.accesses[6] in frame.cells && decision.accesses[7] in frame.cells
      && frame.writes == []
    }
  }

  function AddAll(fp: u32, offsets: seq<u32>): (r: Checked<seq<u32>>)
    ensures r.Ok? ==> |r.value| == |offsets|
  {
    if offsets == [] then Ok([]) else
    var head :- CheckedAdd(fp, offsets[0]);
    var rest :- AddAll(fp, offsets[1..]);
    Ok([head] + rest)
  }

  function SupplyList(f: FrameView, addresses: seq<u32>, cells: seq<Cell>): (r: Checked<FrameView>)
    requires |addresses| == |cells|
    ensures r.Ok? ==> r.value.writes == f.writes && f.cells.Keys <= r.value.cells.Keys
    ensures r.Ok? ==> forall i :: 0 <= i < |addresses| ==> addresses[i] in r.value.cells
    decreases |addresses|
  {
    if addresses == [] then Ok(f) else
    var next :- f.Supply(addresses[0], cells[0]);
    var done :- SupplyList(next, addresses[1..], cells[1..]);
    assert forall i :: 0 < i < |addresses| ==> addresses[i] == addresses[1..][i - 1];
    Ok(done)
  }

  /** `_blake3_addresses`. */
  function Blake3Addresses(fp: u32, messageOffsets: seq<u32>, cvOffset: u32, outOffset: u32): (r: Checked<seq<u32>>)
    requires |messageOffsets| == 4
    ensures r.Ok? ==> |r.value| == 8
  {
    var message :- AddAll(fp, messageOffsets);
    var cv :- CheckedAdd(fp, cvOffset);
    var out :- CheckedAdd(fp, outOffset);
    var cv1 :- CheckedAdd(cv, 1);
    var out1 :- CheckedAdd(out, 1);
    Ok(message + [cv, cv1, out, out1])
  }

  predicate MetadataSupported(metadata: F128) {
    Low(Shr(metadata, 64), 32) <= 64 && Shr(metadata, 96) < 0x80
  }

  /** `_execute_blake3`. */
  function DecideBlake3(r: Request, serviceId: u32): (s: Checked<Suspension>)
    requires r.Valid() && r.Blake3?
    ensures s.Ok? ==> s.value.Valid() && s.value.service.serviceId == serviceId
  {
    if !MetadataSupported(r.metadata) then Reject(BAD_SERVICE) else
    var addresses :- Blake3Addresses(r.head.fp, r.messageOffsets, r.cvOffset, r.outOffset);
    var f :- SupplyList(EMPTY_FRAME, addresses, r.cells);
    if r.head.pc == INDEX_LIMIT - 1 then Reject(INDEX_RANGE) else
    var nextPc :- CheckedAdd(r.head.pc, 1);
    Ok(Suspension(
      Decision(nextPc, r.head.fp, [], [], addresses),
      ServiceRequest(serviceId,
                     [f.Read(addresses[0]), f.Read(addresses[1]), f.Read(addresses[2]), f.Read(addresses[3])],
                     [f.Read(addresses[4]), f.Read(addresses[5])],
                     r.metadata),
      f))
  }

  /** `_resume_blake3`: the digest words enter the suspended frame under the write-once rule. */
  function Resume(s: Suspension, digest0: F128, digest1: F128): (r: Checked<Decision>)
    requires s.Valid()
    ensures r.Ok? ==> r.value.Small()
  {
    var f :- s.frame.WriteOnce(s.decision.accesses[6], digest0);
    var done :- f.WriteOnce(s.decision.accesses[7], digest1);
    Ok(s.decision.(writes := done.writes))
  }

  method ResolveAll(fp: u32, offsets: seq<u32>) returns (r: Checked<seq<u32>>)
    ensures r == AddAll(fp, offsets)
  {
    if offsets == [] {
      return Ok([]);
    }
    var head :- CheckedAdd(fp, offsets[0]);
    var rest :- ResolveAll(fp, offsets[1..]);
    return Ok([head] + rest);
  }

  method SupplyEach(frame: Frame, addresses: seq<u32>, cells: seq<Cell>) returns (r: Checked<()>)
    requires |addresses| == |cells|
    modifies frame
    ensures match SupplyList(old(frame.View()), addresses, cells)
            case Ok(view) => r == Ok(()) && frame.View() == view
            case Err(fault) => r == Err(fault)
  {
    ghost var start := frame.View();
    var i := 0;
    assert addresses[0..] == addresses && cells[0..] == cells;
    while i < |addresses|
      invariant 0 <= i <= |addresses|
      invariant SupplyList(start, addresses, cells) == SupplyList(frame.View(), addresses[i..], cells[i..])
    {
      assert addresses[i..][0] == addresses[i] && addresses[i..][1..] == addresses[i + 1..];
      assert cells[i..][0] == cells[i] && cells[i..][1..] == cells[i + 1..];
      var _ :- frame.Supply(addresses[i], cells[i]);
      i := i + 1;
    }
    return Ok(());
  }

  method ExecuteBlake3(r: Request, serviceId: u32) returns (s: Checked<Suspension>)
    requires r.Valid() && r.Blake3?
    ensures s == DecideBlake3(r, serviceId)
  {
    if !MetadataSupported(r.metadata) {
      return Reject(BAD_SERVICE);
    }
    var frame := new Frame();
    var message :- ResolveAll(r.head.fp, r.messageOffsets);
    var cv :- CheckedAdd(r.head.fp, r.cvOffset);
    var out :- CheckedAdd(r.head.fp, r.outOffset);
    var cv1 :- CheckedAdd(cv, 1);
    var out1 :- CheckedAdd(out, 1);
    var addresses := message + [cv, cv1, out, out1];
    var _ :- SupplyEach(frame, addresses, r.cells);
    if r.head.pc == INDEX_LIMIT - 1 {
      return Reject(INDEX_RANGE);
    }
    var nextPc :- CheckedAdd(r.head.pc, 1);
    var view := FrameView(frame.cells, frame.writes);
    var service := ServiceRequest(
      serviceId,
      [view.Read(addresses[0]), view.Read(addresses[1]), view.Read(addresses[2]), view.Read(addresses[3])],
      [view.Read(addresses[4]), view.Read(addresses[5])],
      r.metadata);
    return Ok(Suspension(Decision(nextPc, r.head.fp, [], [], addresses), service, view));
  }
}
