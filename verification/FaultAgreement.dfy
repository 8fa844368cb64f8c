/** Which fault an instruction that does not retire meets, on each of the two sides: the host's
    refusal and the endpoint's status are determined by the oracle's own fault. */
module FaultAgreement {
  import opened Outcomes
  import opened Bytes
  import opened Ghash
  import opened Inverses
  import opened Pointers
  import opened Protocol
  import opened Requests
  import opened Transitions
  import opened HostMemory
  import opened Refinement
  import opened Lockstep
  import opened ScalarRuns
  import Programs
  import Oracle
  import Host
  import Endpoint

  /** The protocol's name for a fault of one oracle instruction. */
  function StatusFor(fault: Oracle.MachineFault): Status {
    match fault
    case WriteConflict => WRITE_CONFLICT
    case ZeroDivisor => MUL_BACKSOLVE_ZERO
    case InvalidGPower => BAD_POINTER
    case _ => U32_OVERFLOW
  }

  /** What the endpoint answers where the protocol does not support the instruction. */
  function UnsupportedStatus(op: Programs.Operation): Status {
    if op.Xor? || op.Mul? then UNSUPPORTED_IN_PROFILE else INDEX_RANGE
  }

  // ----- the endpoint's faults -----

  /** The endpoint refuses a prepared instruction with the oracle's own fault, or for its operands. */
  ghost predicate FaultsAlike(h: Host.State, profile: Profile, op: Programs.Operation, s: Oracle.State)
    requires h.txnId < U32_LIMIT && !op.Blake3? && s.Valid()
  {
    && Host.Prepare(h, profile, op).Ok?
    && var r := Host.Prepare(h, profile, op).value.request;
    && r.Valid() && Endpoint.IsScalar(r)
    && (Decide(r).Err? ==>
         if !Supported(h, profile, op) then Decide(r).error == Fault(UnsupportedStatus(op), 0)
         else Oracle.Step(s, op).Err? && Decide(r).error == Fault(StatusFor(Oracle.Step(s, op).error), 0))
  }

  /** A back-solve is refused for its profile, or as the oracle refuses to fill. */
  lemma BackSolveFaults(op: Transitions.Operation, profile: Profile, f: FrameView, cells: Cells, s: Oracle.State,
                        a: u32, b: u32, c: u32)
    requires Shows(f, cells) && f.cells.Keys == {a, b, c} && f.writes == []
    requires Mirrors(s, cells, s.pc, s.fp)
    requires BackSolve(op, profile, f, a, b, c, Witness(op, profile, cells, a, b, c)).Err?
    ensures var fault := BackSolve(op, profile, f, a, b, c, Witness(op, profile, cells, a, b, c)).error;
            if !BinarySupported(profile, cells, a, b) then fault == Fault(UNSUPPORTED_IN_PROFILE, 0)
            else fault == Fault(MUL_BACKSOLVE_ZERO, 0)
                 && Oracle.FillOperand(s, op.OpMul?, a, b, c) == Err(Oracle.ZeroDivisor)
  {
    hide FieldMul, Add, Inverse;
    if profile == INTERPRETER_COMPAT {
      assert Solves(cells, a, b, c);
      var missing := if a in cells then b else a;
      var known := if a in cells then a else b;
      var solved := Solve(op, f.Read(c), f.Read(known), Witness(op, profile, cells, a, b, c));
      if op.OpMul? && cells[known] != 0 {
        InverseHolds(cells[known]);
      }
      if solved.Ok? {
        WriteShows(f, cells, missing, solved.value);
      }
    }
  }

  lemma BinaryFaults(op: Transitions.Operation, head: Preamble, offsets: seq<u32>, cells: Cells, s: Oracle.State)
    requires |offsets| == 3 && Addresses(head.fp, offsets).Ok? && Mirrors(s, cells, head.pc, head.fp)
    requires head.pc < U32_MAX
    ensures var addresses := Addresses(head.fp, offsets).value;
            var inverse := Witness(op, head.profile, cells, addresses[0], addresses[1], addresses[2]);
            var r := DecideBinary(op, head, offsets, Host.CellsAt(cells, addresses), inverse);
            var o := Oracle.StepBinary(s, op.OpMul?, offsets[0], offsets[1], offsets[2]);
            r.Err? ==>
              if !BinarySupported(head.profile, cells, addresses[0], addresses[1]) then r.error == Fault(UNSUPPORTED_IN_PROFILE, 0)
              else o.Err? && r.error == Fault(StatusFor(o.error), 0)
  {
    hide FieldMul, Add, Inverse, SupplyThree, Host.InverseWitness, Host.CellsAt, Shows, Reverse, BackSolve, Oracle.FillOperand,
      BinarySupported;
    var addresses := Addresses(head.fp, offsets).value;
    var a, b, c := addresses[0], addresses[1], addresses[2];
    SupplyThreeShows(cells, addresses);
    var f := SupplyThree(addresses, Host.CellsAt(cells, addresses)).value;
    var inverse := Witness(op, head.profile, cells, a, b, c);
    var filled := BackSolveIsFill(op, head.profile, f, cells, s, a, b, c);
    var solved := BackSolve(op, head.profile, f, a, b, c, inverse);
    if solved.Err? {
      BackSolveFaults(op, head.profile, f, cells, s, a, b, c);
    } else {
      var s1 := Oracle.FillOperand(s, op.OpMul?, a, b, c).value;
      ReadsAgree(solved.value, filled, s1, a);
      ReadsAgree(solved.value, filled, s1, b);
      var value := op.Apply(solved.value.Read(a), solved.value.Read(b));
      WriteShows(solved.value, filled, c, value);
      ForwardMatches(solved.value, filled, s1, c, value);
    }
  }

  lemma SetFaults(head: Preamble, offset: u32, constant: F128, cells: Cells, s: Oracle.State)
    requires head.fp + offset <= U32_MAX && head.pc < U32_MAX && Mirrors(s, cells, head.pc, head.fp)
    ensures var r := DecideSet(head, offset, constant, CellOf(cells, head.fp + offset));
            var o := Oracle.Step(s, Programs.Operation.Set(offset, constant));
            r.Err? ==> o == Err(Oracle.WriteConflict) && r.error == Fault(WRITE_CONFLICT, 0)
  {
    var address := head.fp + offset;
    SupplyShows(EMPTY_FRAME, cells, address);
    WriteShows(EMPTY_FRAME.Supply(address, CellOf(cells, address)).value, cells, address, constant);
  }

  lemma DerefFaults(mode: DerefMode, head: Preamble, alpha: u32, beta: u32, gamma: u32, base: u32, cells: Cells, s: Oracle.State)
    requires mode != ModeCell && Mirrors(s, cells, head.pc, head.fp) && head.pc < INDEX_LIMIT && head.fp < INDEX_LIMIT
    requires head.fp + alpha <= U32_MAX && head.fp + gamma <= U32_MAX && base + beta <= U32_MAX
    requires head.fp + alpha in cells && Reverse(cells[head.fp + alpha], INDEX_LIMIT) == Some(base)
    ensures var p, t, l := head.fp + alpha, base + beta, head.fp + gamma;
            var r := DecideDeref(mode, head, alpha, beta, gamma, CellOf(cells, p), base, CellOf(cells, t), CellOf(cells, l));
            var o := Oracle.StepDeref(s, mode, alpha, beta);
            r.Err? ==>
              if mode == ModePc && head.pc + 2 >= INDEX_LIMIT then r.error == Fault(INDEX_RANGE, 0)
              else o == Err(Oracle.WriteConflict) && r.error == Fault(WRITE_CONFLICT, 0)
  {
    hide DecideDeref, Oracle.StepDeref, Reverse, GPower, Shows;
    var index := if mode == ModePc then head.pc + 2 else head.fp;
    OracleDereferences(s, mode, alpha, beta, base, cells);
    var f := DerefReduces(mode, head, alpha, beta, gamma, base, cells);
    WriteShows(f, cells, base + beta, GPower(index));
  }

  /** Inside the window, for every prepared instruction the oracle interprets. */
  lemma PreparedFaults(h: Host.State, profile: Profile, op: Programs.Operation, s: Oracle.State)
    requires h.txnId < U32_LIMIT && op.Interpreted() && h.pc < INDEX_LIMIT && h.fp < INDEX_LIMIT
    requires Host.Prepare(h, profile, op).Ok? && Mirrors(s, h.cells, h.pc, h.fp)
    ensures FaultsAlike(h, profile, op, s)
  {
    hide DecideSet, DecideBinary, DecideDeref, DecideJump, Oracle.StepBinary, Oracle.StepDeref, Oracle.StepJump, Reverse,
      BinarySupported, Host.Prepare, Request.Valid, Host.CellsAt, Inverse, FieldMul;
    PreparedWell(h, profile, op);
    match op
    case Set(o, k) =>
      SetPrepared(h, profile, op);
      SetFaults(Preamble(h.txnId, h.pc, h.fp, profile), o, k, h.cells, s);
    case Xor(a, b, c) =>
      PreparedBinary(h, profile, op);
      BinaryFaults(OpXor, Preamble(h.txnId, h.pc, h.fp, profile), [a, b, c], h.cells, s);
    case Mul(a, b, c) =>
      PreparedBinary(h, profile, op);
      BinaryFaults(OpMul, Preamble(h.txnId, h.pc, h.fp, profile), [a, b, c], h.cells, s);
    case Deref(mode, alpha, beta, gamma) =>
      var base := PreparedDeref(h, profile, op);
      DerefFaults(mode, Preamble(h.txnId, h.pc, h.fp, profile), alpha, beta, gamma, base, h.cells, s);
    case Jump(oc, od, of) =>
      JumpFaults(h, profile, op, s);
  }

  lemma SetPrepared(h: Host.State, profile: Profile, op: Programs.Operation)
    requires h.txnId < U32_LIMIT && op.Set? && Host.Prepare(h, profile, op).Ok?
    ensures h.fp + op.o <= U32_MAX
    ensures Host.Prepare(h, profile, op).value.request
         == Request.SetConstant(Preamble(h.txnId, h.pc, h.fp, profile), op.o, op.k, CellOf(h.cells, h.fp + op.o))
  {
  }

  lemma JumpFaults(h: Host.State, profile: Profile, op: Programs.Operation, s: Oracle.State)
    requires h.txnId < U32_LIMIT && op.Jump? && h.pc < INDEX_LIMIT && h.fp < INDEX_LIMIT
    requires Host.Prepare(h, profile, op).Ok? && Mirrors(s, h.cells, h.pc, h.fp)
    ensures FaultsAlike(h, profile, op, s)
  {
    hide Reverse, Host.CellsAt, Inverse, FieldMul, Host.Prepare, Request.Valid, Oracle.StepJump, SupplyThree;
    PreparedWell(h, profile, op);
    PreparedBranch(h, profile, op);
    ConditionCell(h, op);
    var r := Host.Prepare(h, profile, op).value.request;
    var addresses := Addresses(h.fp, [op.oc, op.od, op.of]).value;
    SupplyThreeShows(h.cells, addresses);
    var f := SupplyThree(addresses, r.cells).value;
    ReadsAgree(f, h.cells, s, addresses[0]);
    ReadsAgree(f, h.cells, s, addresses[1]);
    ReadsAgree(f, h.cells, s, addresses[2]);
    BranchCells(h, addresses);
    if r.taken {
      InverseHolds(r.cells[0].value);
    }
    assert r.taken ==> VerifyIndex(r.destPc, r.cells[1].value).Ok? && VerifyIndex(r.destFp, r.cells[2].value).Ok? by {
      if r.taken {
        ReversedVerifies(r.cells[1].value, r.destPc);
        ReversedVerifies(r.cells[2].value, r.destFp);
      }
    }
  }

  lemma BranchCells(h: Host.State, addresses: seq<u32>)
    requires |addresses| == 3
    ensures var cells := Host.CellsAt(h.cells, addresses);
            forall i :: 0 <= i < 3 ==> cells[i] == CellOf(h.cells, addresses[i])
  {
  }

  lemma ReversedVerifies(pointer: F128, index: u32)
    requires Reverse(pointer, INDEX_LIMIT) == Some(index)
    ensures VerifyIndex(index, pointer).Ok?
  {
    hide GPower;
  }

  // ----- the host's refusals -----

  /** The host refuses for a pointer exactly where the oracle cannot reverse one, and otherwise
      for an overflowing address. */
  lemma RefusalFault(h: Host.State, profile: Profile, op: Programs.Operation, s: Oracle.State)
    requires h.txnId < U32_LIMIT && op.Interpreted()
    requires Host.Prepare(h, profile, op).Err? && Mirrors(s, h.cells, h.pc, h.fp)
    ensures Host.Prepare(h, profile, op)
         == Host.Refuse(if Oracle.Step(s, op) == Err(Oracle.InvalidGPower) then BAD_POINTER else U32_OVERFLOW)
    ensures !(op.Deref? && h.fp + op.gamma > U32_MAX) ==>
              Oracle.Step(s, op).Err? && Host.Prepare(h, profile, op) == Host.Refuse(StatusFor(Oracle.Step(s, op).error))
  {
    ZeroIsNoPointer(INDEX_LIMIT);
    hide Inverse, Reverse, FieldMul, Add, GPower, Oracle.FillOperand;
  }

  // ----- a whole step -----

  /** A step that does not retire ends as the oracle's instruction determines: the host's refusal,
      the index window, the operands, and the oracle's own fault, in that order. */
  lemma StepFault(h: Host.State, profile: Profile, e: Endpoint.State, op: Programs.Operation, s: Oracle.State,
                  outcome: Host.StepOutcome, h': Host.State, e': Endpoint.State)
    requires InStep(h, profile, e) && op.Interpreted() && h.txnId + 1 < U32_LIMIT && e.retireSeq + 1 < U32_LIMIT
    requires ModelStep(h, profile, e, op, outcome, h', e') && !outcome.Retired?
    requires Mirrors(s, h.cells, h.pc, h.fp)
    ensures outcome.Refused? || outcome.Faulted?
    ensures outcome.Refused? ==>
              outcome.refusal == Host.PreparationFault(if Oracle.Step(s, op) == Err(Oracle.InvalidGPower) then BAD_POINTER else U32_OVERFLOW)
    ensures outcome.Refused? && !(op.Deref? && h.fp + op.gamma > U32_MAX) ==>
              Oracle.Step(s, op).Err? && outcome.refusal == Host.PreparationFault(StatusFor(Oracle.Step(s, op).error))
    ensures outcome.Faulted? ==>
              if h.pc >= INDEX_LIMIT || h.fp >= INDEX_LIMIT then outcome.status == INDEX_RANGE
              else if !Supported(h, profile, op) then outcome.status == UnsupportedStatus(op)
              else Oracle.Step(s, op).Err? && outcome.status == StatusFor(Oracle.Step(s, op).error)
  {
    hide Decide, Oracle.Step, Host.Prepare, InStep, ModelStep, Request.Valid, Endpoint.IsScalar, Retirable, Unretired;
    StepStaysInStep(h, profile, e, op, outcome, h', e');
    var h1 := Counted(h);
    RetirableCases(h1, profile, op);
    if Host.Prepare(h1, profile, op).Err? {
      RefusalFault(h1, profile, op, s);
    } else if h.pc < INDEX_LIMIT && h.fp < INDEX_LIMIT {
      PreparedFaults(h1, profile, op, s);
      SupportedCounted(h, profile, op);
    }
  }

  lemma SupportedCounted(h: Host.State, profile: Profile, op: Programs.Operation)
    ensures Supported(Counted(h), profile, op) == Supported(h, profile, op)
  {
  }
}
