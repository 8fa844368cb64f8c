/** What the endpoint decides about a host-prepared request, in terms of the host's
    memory, and its agreement with the oracle. */
module Refinement {
  import opened Outcomes
  import opened Bytes
  import opened Ghash
  import opened Inverses
  import opened Pointers
  import opened Protocol
  import opened Requests
  import opened Transitions
  import opened Programs
  import opened HostMemory
  import Oracle
  import Host

  /** The oracle is in the host's scalar state. */
  ghost predicate Mirrors(s: Oracle.State, cells: Cells, pc: nat, fp: nat) {
    s.memory == cells && s.written == cells.Keys && s.pc == pc && s.fp == fp
  }

  /** The decision, applied to the host's memory, is the oracle's next state. */
  ghost predicate Agrees(s: Oracle.State, cells: Cells, d: Decision, s': Oracle.State) {
    Mirrors(s', ApplyWrites(cells, d.writes), d.nextPc, d.nextFp) && s'.cycles == s.cycles + 1
  }

  /** A decision the host can always commit: at most one write, to a cell it holds absent;
      deferred equalities between absent cells; nothing outside the frame. */
  predicate Committable(cells: Cells, addresses: seq<u32>, d: Decision) {
    && (d.writes == [] || (|d.writes| == 1 && d.writes[0].address !in cells && d.writes[0].address in addresses))
    && (d.deferred == [] || (d.writes == [] && |d.deferred| == 1 && IsOpen(cells, d.deferred[0])
                             && d.deferred[0].target in addresses && d.deferred[0].local in addresses))
    && (forall a :: a in d.accesses ==> a in addresses)
  }

  // ----- frames supplied from memory -----

  /** Every supplied cell is the host's, as overlaid by the writes so far. */
  ghost predicate Shows(f: FrameView, cells: Cells) {
    forall a :: a in f.cells ==> f.cells[a] == CellOf(cells, a)
  }

  lemma SupplyShows(f: FrameView, cells: Cells, address: u32)
    requires Shows(f, cells)
    ensures f.Supply(address, CellOf(cells, address)).Ok?
    ensures Shows(f.Supply(address, CellOf(cells, address)).value, cells)
  {
  }

  lemma SupplyThreeShows(cells: Cells, addresses: seq<u32>)
    requires |addresses| == 3
    ensures var r := SupplyThree(addresses, Host.CellsAt(cells, addresses)); r.Ok? && Shows(r.value, cells)
  {
    var f0 := EMPTY_FRAME.Supply(addresses[0], CellOf(cells, addresses[0])).value;
    SupplyShows(EMPTY_FRAME, cells, addresses[0]);
    SupplyShows(f0, cells, addresses[1]);
    SupplyShows(f0.Supply(addresses[1], CellOf(cells, addresses[1])).value, cells, addresses[2]);
  }

  /** Writing through the frame is writing to memory, and succeeds exactly when memory admits it. */
  lemma WriteShows(f: FrameView, cells: Cells, address: u32, value: F128)
    requires Shows(f, cells) && address in f.cells
    ensures var r := f.WriteOnce(address, value);
            && r.Ok? == (address in cells ==> cells[address] == value)
            && (r.Err? ==> r == Reject(WRITE_CONFLICT))
            && (r.Ok? ==>
                 && Shows(r.value, cells[address := value])
                 && r.value.writes == if address in cells then f.writes else f.writes + [Write(address, value)])
  {
  }

  lemma ApplyOne(cells: Cells, address: u32, value: F128)
    ensures ApplyWrites(cells, [Write(address, value)]) == cells[address := value]
  {
  }

  // ----- XOR and MUL -----

  /** Whether the binary instruction solves for an operand. */
  predicate Solves(cells: Cells, a: u32, b: u32, c: u32) {
    c in cells && (a in cells) != (b in cells)
  }

  /** What the profile asks for beyond what the oracle executes: FORWARD_ONLY solves for nothing and
      needs both operands in memory. */
  predicate BinarySupported(profile: Profile, cells: Cells, a: nat, b: nat) {
    profile == FORWARD_ONLY ==> a in cells && b in cells
  }

  ghost function Witness(op: Transitions.Operation, profile: Profile, cells: Cells, a: u32, b: u32, c: u32): Cell {
    if op.OpXor? then ABSENT else Host.InverseWitness(profile, CellOf(cells, a), CellOf(cells, b), CellOf(cells, c))
  }

  /** The solved operand makes the forward product come out as the destination already holds it. */
  lemma SolvedForward(op: Transitions.Operation, product: F128, known: F128, inverse: Cell)
    requires Solve(op, product, known, inverse).Ok?
    ensures var x := Solve(op, product, known, inverse).value; op.Apply(known, x) == product == op.Apply(x, known)
  {
    if op.OpXor? {
      AddCancels(product, known);
      AddCancels(known, product);
    } else {
      WitnessSolves(known, inverse.value, product);
    }
  }

  /** An operand solved by the endpoint never collides with the forward write of its own
      instruction, even when operands share an address. */
  lemma BackSolveNeverConflicts(op: Transitions.Operation, f: FrameView, cells: Cells, a: u32, b: u32, c: u32, inverse: Cell)
    requires Shows(f, cells) && a in f.cells && b in f.cells && c in f.cells
    requires Solves(cells, a, b, c)
    requires BackSolve(op, INTERPRETER_COMPAT, f, a, b, c, inverse).Ok?
    ensures var solved := BackSolve(op, INTERPRETER_COMPAT, f, a, b, c, inverse).value;
            var done := solved.WriteOnce(c, op.Apply(solved.Read(a), solved.Read(b)));
            done == Ok(solved)
  {
    hide FieldMul, Add;
    var known, missing := if a in cells then a else b, if a in cells then b else a;
    SolvedForward(op, f.Read(c), f.Read(known), inverse);
    var x := Solve(op, f.Read(c), f.Read(known), inverse).value;
    WriteShows(f, cells, missing, x);
  }

  /** The endpoint's back-solving is the oracle's filling, given the host's witness. */
  lemma BackSolveIsFill(op: Transitions.Operation, profile: Profile, f: FrameView, cells: Cells, s: Oracle.State, a: u32, b: u32, c: u32)
    returns (filled: Cells)
    requires Shows(f, cells) && f.cells.Keys == {a, b, c} && f.writes == []
    requires Mirrors(s, cells, s.pc, s.fp)
    ensures var r := BackSolve(op, profile, f, a, b, c, Witness(op, profile, cells, a, b, c));
            var o := Oracle.FillOperand(s, op.OpMul?, a, b, c);
            && (r.Ok? ==>
                 && o.Ok? && Mirrors(o.value, filled, s.pc, s.fp) && Shows(r.value, filled)
                 && filled == ApplyWrites(cells, r.value.writes)
                 && (if profile == INTERPRETER_COMPAT && Solves(cells, a, b, c)
                     then |r.value.writes| == 1 && r.value.writes[0].address !in cells && r.value.writes[0].address in {a, b}
                     else r.value == f))
            && (r.Ok? <==> o.Ok? && BinarySupported(profile, cells, a, b))
  {
    hide FieldMul, Add, Inverse;
    filled := cells;
    if profile == INTERPRETER_COMPAT && Solves(cells, a, b, c) {
      var known, missing := if a in cells then a else b, if a in cells then b else a;
      var solved := Solve(op, f.Read(c), f.Read(known), Witness(op, profile, cells, a, b, c));
      if op.OpMul? && cells[known] != 0 {
        InverseHolds(cells[known]);
      }
      if solved.Ok? {
        WriteShows(f, cells, missing, solved.value);
        ApplyOne(cells, missing, solved.value);
        filled := cells[missing := solved.value];
      }
    }
  }

  /** The forward write, after filling. */
  lemma ForwardMatches(f: FrameView, cells: Cells, s: Oracle.State, c: u32, value: F128)
    requires Shows(f, cells) && c in f.cells && Mirrors(s, cells, s.pc, s.fp)
    ensures var r := f.WriteOnce(c, value);
            var o := s.WriteOnce(c, value);
            && r.Ok? == o.Ok?
            && (r.Ok? ==> Mirrors(o.value, cells[c := value], s.pc, s.fp) && o.value.cycles == s.cycles)
            && (r.Ok? ==> r.value.writes == if c in cells then f.writes else f.writes + [Write(c, value)])
            && (r.Ok? && c in cells ==> cells[c := value] == cells)
  {
    WriteShows(f, cells, c, value);
  }

  lemma BinaryRefines(op: Transitions.Operation, head: Preamble, offsets: seq<u32>, cells: Cells, s: Oracle.State)
    requires |offsets| == 3 && Addresses(head.fp, offsets).Ok? && Mirrors(s, cells, head.pc, head.fp)
    ensures var addresses := Addresses(head.fp, offsets).value;
            var inverse := Witness(op, head.profile, cells, addresses[0], addresses[1], addresses[2]);
            var r := DecideBinary(op, head, offsets, Host.CellsAt(cells, addresses), inverse);
            var o := Oracle.StepBinary(s, op.OpMul?, offsets[0], offsets[1], offsets[2]);
            && (r.Ok? ==> o.Ok? && Agrees(s, cells, r.value, o.value) && Committable(cells, addresses, r.value) && r.value.deferred == [])
            && (r.Ok? <==> o.Ok? && BinarySupported(head.profile, cells, addresses[0], addresses[1]))
  {
    hide FieldMul, Add, Inverse, SupplyThree, Host.InverseWitness, Host.CellsAt, Shows, Reverse, BackSolve, Oracle.FillOperand,
      BinarySupported;
    var addresses := Addresses(head.fp, offsets).value;
    var a, b, c := addresses[0], addresses[1], addresses[2];
    SupplyThreeShows(cells, addresses);
    var f := SupplyThree(addresses, Host.CellsAt(cells, addresses)).value;
    var inverse := Witness(op, head.profile, cells, a, b, c);
    var filled := BackSolveIsFill(op, head.profile, f, cells, s, a, b, c);
    var r1 := BackSolve(op, head.profile, f, a, b, c, inverse);
    if r1.Ok? {
      var value := op.Apply(r1.value.Read(a), r1.value.Read(b));
      var s1 := Oracle.FillOperand(s, op.OpMul?, a, b, c).value;
      ReadsAgree(r1.value, filled, s1, a);
      ReadsAgree(r1.value, filled, s1, b);
      ForwardMatches(r1.value, filled, s1, c, value);
      if head.profile == INTERPRETER_COMPAT && Solves(cells, a, b, c) {
        BackSolveNeverConflicts(op, f, cells, a, b, c, inverse);
      } else {
        ApplyOne(cells, c, value);
        assert [] + [Write(c, value)] == [Write(c, value)];
      }
    }
  }

  lemma ReadsAgree(f: FrameView, cells: Cells, s: Oracle.State, address: u32)
    requires Shows(f, cells) && address in f.cells && Mirrors(s, cells, s.pc, s.fp)
    ensures f.Read(address) == s.Read(address)
  {
  }

  // ----- SET, DEREF, JUMP -----

  lemma SetRefines(head: Preamble, offset: u32, constant: F128, cells: Cells, s: Oracle.State)
    requires head.fp + offset <= U32_MAX && Mirrors(s, cells, head.pc, head.fp)
    ensures var r := DecideSet(head, offset, constant, CellOf(cells, head.fp + offset));
            var o := Oracle.Step(s, Programs.Operation.Set(offset, constant));
            && r.Ok? == o.Ok?
            && (r.Ok? ==> Agrees(s, cells, r.value, o.value) && Committable(cells, [head.fp + offset], r.value) && r.value.deferred == [])
  {
    var address := head.fp + offset;
    SupplyShows(EMPTY_FRAME, cells, address);
    var f := EMPTY_FRAME.Supply(address, CellOf(cells, address)).value;
    ForwardMatches(f, cells, s, address, constant);
    ApplyOne(cells, address, constant);
    assert [] + [Write(address, constant)] == [Write(address, constant)];
  }

  /** The three cells of a dereference, supplied from memory. */
  lemma SupplyDeref(cells: Cells, pointer: u32, target: u32, local: u32) returns (f: FrameView)
    ensures var f0 := EMPTY_FRAME.Supply(pointer, CellOf(cells, pointer));
            && f0.Ok? && f0.value.Read(pointer) == CellOf(cells, pointer).value
            && var f1 := f0.value.Supply(target, CellOf(cells, target));
               f1.Ok? && f1.value.Supply(local, CellOf(cells, local)) == Ok(f)
    ensures Shows(f, cells) && target in f.cells && local in f.cells && f.writes == []
  {
    SupplyShows(EMPTY_FRAME, cells, pointer);
    var f0 := EMPTY_FRAME.Supply(pointer, CellOf(cells, pointer)).value;
    SupplyShows(f0, cells, target);
    var f1 := f0.Supply(target, CellOf(cells, target)).value;
    SupplyShows(f1, cells, local);
    f := f1.Supply(local, CellOf(cells, local)).value;
  }

  lemma ReconcileFits(profile: Profile, f: FrameView, cells: Cells, target: u32, local: u32, addresses: seq<u32>)
    requires Shows(f, cells) && target in f.cells && local in f.cells && f.writes == []
    requires target in addresses && local in addresses
    ensures var r := Reconcile(profile, f, target, local);
            r.Ok? ==> Committable(cells, addresses, Decision(0, 0, r.value.0.writes, r.value.1, []))
  {
  }

  /** The decision on a dereference of a verified pointer is the effect of its mode. */
  lemma DerefReduces(mode: DerefMode, head: Preamble, alpha: u32, beta: u32, gamma: u32, base: u32, cells: Cells)
    returns (f: FrameView)
    requires head.fp + alpha <= U32_MAX && head.fp + gamma <= U32_MAX && base + beta <= U32_MAX
    ensures var p, t, l := head.fp + alpha, base + beta, head.fp + gamma;
            var r := DecideDeref(mode, head, alpha, beta, gamma, CellOf(cells, p), base, CellOf(cells, t), CellOf(cells, l));
            && Shows(f, cells) && t in f.cells && l in f.cells && f.writes == []
            && (if VerifyIndex(base, CellOf(cells, p).value).Err? then r.Err?
                else r == match DerefEffect(mode, head, f, t, l)
                          case Err(fault) => Err(fault)
                          case Ok((done, deferred)) =>
                            if head.pc + 1 > U32_MAX then Reject(U32_OVERFLOW)
                            else Ok(Decision(head.pc + 1, head.fp, done.writes, deferred, [p, t, l])))
  {
    hide DerefEffect, VerifyIndex, Shows;
    f := SupplyDeref(cells, head.fp + alpha, base + beta, head.fp + gamma);
  }

  lemma DerefFits(mode: DerefMode, head: Preamble, alpha: u32, beta: u32, gamma: u32, base: u32, cells: Cells)
    requires head.fp + alpha <= U32_MAX && head.fp + gamma <= U32_MAX && base + beta <= U32_MAX
    ensures var p, t, l := head.fp + alpha, base + beta, head.fp + gamma;
            var r := DecideDeref(mode, head, alpha, beta, gamma, CellOf(cells, p), base, CellOf(cells, t), CellOf(cells, l));
            r.Ok? ==> Committable(cells, [p, t, l], r.value)
  {
    hide DecideDeref, VerifyIndex, Reconcile, GPower;
    var p, t, l := head.fp + alpha, base + beta, head.fp + gamma;
    var f := DerefReduces(mode, head, alpha, beta, gamma, base, cells);
    ReconcileFits(head.profile, f, cells, t, l, [p, t, l]);
  }

  /** What the oracle makes of a dereference whose pointer it can reverse. */
  lemma OracleDereferences(s: Oracle.State, mode: DerefMode, alpha: u32, beta: u32, base: u32, cells: Cells)
    requires mode != ModeCell && Mirrors(s, cells, s.pc, s.fp) && s.fp + alpha <= U32_MAX && base + beta <= U32_MAX
    requires s.fp + alpha in cells && Reverse(cells[s.fp + alpha], INDEX_LIMIT) == Some(base)
    ensures GPower(base) == cells[s.fp + alpha] && base < INDEX_LIMIT
    ensures var index := if mode == ModePc then s.pc + 2 else s.fp;
            Oracle.StepDeref(s, mode, alpha, beta)
            == if mode == ModePc && index > U32_MAX then Err(Oracle.Overflow)
               else match s.WriteOnce(base + beta, GPower(index))
                 case Err(fault) => Err(fault)
                 case Ok(done) => Oracle.Advance(done)
  {
    assert Oracle.OracleReverseIndex(s.Read(s.fp + alpha)) == Ok(base);
    hide Reverse, GPower, Oracle.OracleReverseIndex, Oracle.Advance;
  }

  lemma DerefRefines(mode: DerefMode, head: Preamble, alpha: u32, beta: u32, gamma: u32, base: u32, cells: Cells, s: Oracle.State)
    requires mode != ModeCell && Mirrors(s, cells, head.pc, head.fp)
    requires head.fp + alpha <= U32_MAX && head.fp + gamma <= U32_MAX && base + beta <= U32_MAX
    requires head.fp + alpha in cells && Reverse(cells[head.fp + alpha], INDEX_LIMIT) == Some(base)
    ensures var p, t, l := head.fp + alpha, base + beta, head.fp + gamma;
            var r := DecideDeref(mode, head, alpha, beta, gamma, CellOf(cells, p), base, CellOf(cells, t), CellOf(cells, l));
            var o := Oracle.StepDeref(s, mode, alpha, beta);
            && (r.Ok? <==> o.Ok? && (if mode == ModePc then head.pc + 2 else head.fp) < INDEX_LIMIT)
            && (r.Ok? ==> Agrees(s, cells, r.value, o.value) && r.value.deferred == [])
  {
    hide DecideDeref, Oracle.StepDeref, Reverse, GPower, Shows;
    var t := base + beta;
    var index := if mode == ModePc then head.pc + 2 else head.fp;
    OracleDereferences(s, mode, alpha, beta, base, cells);
    var f := DerefReduces(mode, head, alpha, beta, gamma, base, cells);
    ForwardMatches(f, cells, s, t, GPower(index));
    ApplyOne(cells, t, GPower(index));
    assert [] + [Write(t, GPower(index))] == [Write(t, GPower(index))];
  }

  lemma JumpRefines(head: Preamble, offsets: seq<u32>, cells: Cells, s: Oracle.State,
                    taken: bool, destPc: u32, destFp: u32, inverse: Cell)
    requires |offsets| == 3 && Addresses(head.fp, offsets).Ok? && Mirrors(s, cells, head.pc, head.fp)
    requires var cs := Host.CellsAt(cells, Addresses(head.fp, offsets).value);
             && taken == (cs[0].value != 0)
             && (if taken then
                   && Reverse(cs[1].value, INDEX_LIMIT) == Some(destPc) && Reverse(cs[2].value, INDEX_LIMIT) == Some(destFp)
                   && inverse == Cell(true, Inverse(cs[0].value))
                 else destPc == 0 && destFp == 0 && inverse == ABSENT)
    ensures var addresses := Addresses(head.fp, offsets).value;
            var cs := Host.CellsAt(cells, addresses);
            var r := DecideJump(head, offsets, cs, taken, destPc, destFp, inverse);
            var o := Oracle.StepJump(s, offsets[0], offsets[1], offsets[2]);
            && (r.Ok? <==> o.Ok?)
            && (r.Ok? ==> Agrees(s, cells, r.value, o.value) && Committable(cells, addresses, r.value) && r.value.deferred == [])
  {
    var addresses := Addresses(head.fp, offsets).value;
    SupplyThreeShows(cells, addresses);
    var cs := Host.CellsAt(cells, addresses);
    var f := SupplyThree(addresses, cs).value;
    ReadsAgree(f, cells, s, addresses[0]);
    ReadsAgree(f, cells, s, addresses[1]);
    ReadsAgree(f, cells, s, addresses[2]);
    assert taken ==> GPower(destPc) == cs[1].value && GPower(destFp) == cs[2].value;
    if taken {
      InverseHolds(cs[0].value);
    }
    hide FieldMul, Inverse, GPower, Reverse, SupplyThree;
  }
}
